/**
  What the byte ring between the R worker and the frontend is for (c_ffi/ring_buffer.c): a queue of
  frames that makes room for a new frame by forgetting its oldest ones, counts what it forgot, and
  cuts a frame that could never fit.
*/
module RingQueue {
  newtype byte = x: int | 0 <= x < 0x100
  newtype uint32 = x: int | 0 <= x < 0x1_0000_0000

  const HEADER_SIZE: nat := 6
  const FLAG_TRUNCATED: byte := 1

  datatype Frame = Frame(kind: byte, flags: byte, payload: seq<byte>)

  /** Bytes a frame takes in the ring. */
  function FrameSize(f: Frame): nat {
    HEADER_SIZE + |f.payload|
  }

  function TotalSize(fs: seq<Frame>): nat {
    if fs == [] then 0 else FrameSize(fs[0]) + TotalSize(fs[1..])
  }

  function PayloadBytes(fs: seq<Frame>): nat {
    if fs == [] then 0 else |fs[0].payload| + PayloadBytes(fs[1..])
  }

  // ---------------------------------------------------------------- the queue

  datatype Queue = Queue(capacity: nat, frames: seq<Frame>, droppedMessages: nat, droppedBytes: nat) {
    ghost predicate Valid() {
      && HEADER_SIZE < capacity
      && TotalSize(frames) <= capacity
      && forall i :: 0 <= i < |frames| ==> |frames[i].payload| < 0x1_0000_0000
    }
  }

  /** `flags |= RB_FLAG_TRUNCATED`: sets the lowest bit. */
  function SetTruncated(flags: byte): byte {
    if flags % 2 == 1 then flags else flags + FLAG_TRUNCATED
  }

  /** The frame that a push really stores: an oversize payload is cut to fill the whole ring. */
  function Stored(capacity: nat, f: Frame): (g: Frame)
    requires HEADER_SIZE < capacity
    ensures FrameSize(g) <= capacity
    ensures g.payload <= f.payload && g.kind == f.kind
    ensures g == f <==> FrameSize(f) <= capacity
  {
    if FrameSize(f) > capacity
    then Frame(f.kind, SetTruncated(f.flags), f.payload[..capacity - HEADER_SIZE])
    else f
  }

  /** How many of the oldest frames go, so that the rest fits in `room` bytes. */
  function EvictCount(fs: seq<Frame>, room: nat): (n: nat)
    ensures n <= |fs|
  {
    if TotalSize(fs) <= room then 0 else 1 + EvictCount(fs[1..], room)
  }

  function Push(q: Queue, f: Frame): Queue
    requires HEADER_SIZE < q.capacity
  {
    var g := Stored(q.capacity, f);
    var n := EvictCount(q.frames, q.capacity - FrameSize(g));
    Queue(q.capacity, q.frames[n..] + [g],
          q.droppedMessages + n, q.droppedBytes + PayloadBytes(q.frames[..n]))
  }

  function Pop(q: Queue): Queue
    requires q.frames != []
  {
    q.(frames := q.frames[1..])
  }

  function Reset(q: Queue): Queue {
    Queue(q.capacity, [], 0, 0)
  }

  // ---------------------------------------------------- properties of the queue

  lemma {:induction false} TotalSizeConcat(a: seq<Frame>, b: seq<Frame>)
    ensures TotalSize(a + b) == TotalSize(a) + TotalSize(b)
  {
    if a == [] {
      assert a + b == b;
    } else {
      assert (a + b)[1..] == a[1..] + b;
      TotalSizeConcat(a[1..], b);
    }
  }

  lemma OnlyEmptyHasNoSize(fs: seq<Frame>)
    ensures TotalSize(fs) == 0 <==> fs == []
  {
  }

  lemma {:induction false} PayloadBytesConcat(a: seq<Frame>, b: seq<Frame>)
    ensures PayloadBytes(a + b) == PayloadBytes(a) + PayloadBytes(b)
  {
    if a == [] {
      assert a + b == b;
    } else {
      assert (a + b)[1..] == a[1..] + b;
      PayloadBytesConcat(a[1..], b);
    }
  }

  /** Eviction stops exactly when the rest fits: it removes the shortest prefix that makes room. */
  lemma {:induction false} EvictsShortestPrefix(fs: seq<Frame>, room: nat, k: nat)
    requires k <= |fs|
    ensures TotalSize(fs[k..]) <= room <==> EvictCount(fs, room) <= k
  {
    assert fs[0..] == fs;
    if TotalSize(fs) <= room {
      TotalSizeConcat(fs[..k], fs[k..]);
      assert fs[..k] + fs[k..] == fs;
    } else if k > 0 {
      assert fs[k..] == fs[1..][k - 1..];
      EvictsShortestPrefix(fs[1..], room, k - 1);
    }
  }

  /** `n` is the length of the shortest prefix of `fs` whose removal leaves at most `room` bytes. */
  ghost predicate ShortestPrefix(fs: seq<Frame>, room: nat, n: nat) {
    && n <= |fs|
    && TotalSize(fs[n..]) <= room
    && forall m :: 0 <= m < n ==> TotalSize(fs[m..]) > room
  }

  lemma EvictCountIsShortest(fs: seq<Frame>, room: nat)
    ensures ShortestPrefix(fs, room, EvictCount(fs, room))
  {
    var n := EvictCount(fs, room);
    EvictsShortestPrefix(fs, room, n);
    forall m | 0 <= m < n
      ensures TotalSize(fs[m..]) > room
    {
      EvictsShortestPrefix(fs, room, m);
    }
  }

  /** What one push does: the shortest prefix that makes room is dropped and counted, every younger
      frame is kept in order, and the new frame comes last. */
  ghost predicate PushDrops(q: Queue, g: Frame, q': Queue, n: nat) {
    && FrameSize(g) <= q.capacity
    && ShortestPrefix(q.frames, q.capacity - FrameSize(g), n)
    && q'.capacity == q.capacity
    && q'.frames == q.frames[n..] + [g]
    && q'.droppedMessages == q.droppedMessages + n
    && q'.droppedBytes == q.droppedBytes + PayloadBytes(q.frames[..n])
  }

  lemma PushEffect(q: Queue, f: Frame) returns (n: nat)
    requires q.Valid() && |f.payload| < 0x1_0000_0000
    ensures PushDrops(q, Stored(q.capacity, f), Push(q, f), n)
    ensures n == 0 <==> TotalSize(q.frames) + FrameSize(Stored(q.capacity, f)) <= q.capacity
  {
    var g := Stored(q.capacity, f);
    var room := q.capacity - FrameSize(g);
    n := EvictCount(q.frames, room);
    assert ShortestPrefix(q.frames, room, n) && (n == 0 <==> TotalSize(q.frames) <= room) by {
      EvictCountIsShortest(q.frames, room);
      NothingGoesIff(q.frames, room, n);
    }
  }

  lemma NothingGoesIff(fs: seq<Frame>, room: nat, n: nat)
    requires ShortestPrefix(fs, room, n)
    ensures n == 0 <==> TotalSize(fs) <= room
  {
    assert fs[0..] == fs;
  }

  lemma PushDropsKeepsValid(q: Queue, g: Frame, q': Queue, n: nat)
    requires q.Valid() && |g.payload| < 0x1_0000_0000
    requires PushDrops(q, g, q', n)
    ensures q'.Valid()
  {
    TotalSizeConcat(q.frames[n..], [g]);
    SizeOfOne(g);
  }

  /** An oversize message empties the ring, all that was there being counted, ... */
  lemma {:induction false} OversizeEmptiesTheRing(q: Queue, f: Frame)
    requires q.Valid() && FrameSize(f) > q.capacity && |f.payload| < 0x1_0000_0000
    ensures Push(q, f) == Queue(q.capacity, [Stored(q.capacity, f)],
                                q.droppedMessages + |q.frames|, q.droppedBytes + PayloadBytes(q.frames))
  {
    var n := PushEffect(q, f);
    OversizeFillsTheRing(q.capacity, f);
    NoRoomMeansAllGone(q.frames, n);
    assert q.frames[..|q.frames|] == q.frames;
  }

  /** ... and is cut to fill it exactly. */
  lemma {:induction false} OversizeFillsTheRing(capacity: nat, f: Frame)
    requires HEADER_SIZE < capacity < FrameSize(f)
    ensures FrameSize(Stored(capacity, f)) == capacity
    ensures Stored(capacity, f).flags % 2 == 1 && Stored(capacity, f).flags / 2 == f.flags / 2
  {
  }

  lemma NoRoomMeansAllGone(fs: seq<Frame>, n: nat)
    requires ShortestPrefix(fs, 0, n)
    ensures n == |fs|
  {
    OnlyEmptyHasNoSize(fs[n..]);
  }

  lemma SizeOfOne(f: Frame)
    ensures TotalSize([f]) == FrameSize(f) && PayloadBytes([f]) == |f.payload|
  {
  }

  // ------------------------------------------------------ conservation over a run

  datatype Op = PushOp(frame: Frame) | PopOp

  /** Frames that one operation stores, and frames that it hands to the reader. */
  function StoredBy(q: Queue, op: Op): seq<Frame>
    requires HEADER_SIZE < q.capacity
  {
    if op.PushOp? then [Stored(q.capacity, op.frame)] else []
  }

  function TakenBy(q: Queue, op: Op): seq<Frame> {
    if op.PopOp? && q.frames != [] then [q.frames[0]] else []
  }

  function Apply(q: Queue, op: Op): (q': Queue)
    requires HEADER_SIZE < q.capacity
    ensures q'.capacity == q.capacity
  {
    match op
    case PushOp(f) => Push(q, f)
    case PopOp => if q.frames == [] then q else Pop(q)
  }

  ghost predicate ValidOp(op: Op) {
    op.PushOp? ==> |op.frame.payload| < 0x1_0000_0000
  }

  datatype Run = Run(queue: Queue, pushed: seq<Frame>, popped: seq<Frame>)

  /** All operations of a run, with the frames stored and the frames taken in order. */
  function Execute(q: Queue, ops: seq<Op>): (r: Run)
    requires HEADER_SIZE < q.capacity
    ensures r.queue.capacity == q.capacity
  {
    if ops == [] then Run(q, [], [])
    else
      var last := |ops| - 1;
      var r := Execute(q, ops[..last]);
      Run(Apply(r.queue, ops[last]),
          r.pushed + StoredBy(r.queue, ops[last]),
          r.popped + TakenBy(r.queue, ops[last]))
  }

  /** Frames are conserved: every frame stored since the last reset has been popped, is still in the
      ring, or is counted as dropped; likewise for payload bytes.  The ring holds the most recent of
      the stored frames, in the order they were stored, and stays within its capacity. */
  ghost predicate Conserved(r: Run) {
    && r.queue.Valid()
    && |r.pushed| == |r.popped| + r.queue.droppedMessages + |r.queue.frames|
    && PayloadBytes(r.pushed) == PayloadBytes(r.popped) + r.queue.droppedBytes + PayloadBytes(r.queue.frames)
    && r.queue.frames == r.pushed[|r.pushed| - |r.queue.frames|..]
  }

  lemma PushConserves(r: Run, f: Frame)
    requires Conserved(r) && |f.payload| < 0x1_0000_0000
    ensures Conserved(Run(Push(r.queue, f), r.pushed + [Stored(r.queue.capacity, f)], r.popped))
  {
    var n := PushEffect(r.queue, f);
    var g := Stored(r.queue.capacity, f);
    PushDropsKeepsValid(r.queue, g, Push(r.queue, f), n);
    DropsConserve(r, g, Push(r.queue, f), n);
  }

  lemma DropsConserve(r: Run, g: Frame, q': Queue, n: nat)
    requires Conserved(r) && q'.Valid()
    requires PushDrops(r.queue, g, q', n)
    ensures Conserved(Run(q', r.pushed + [g], r.popped))
  {
    var fs := r.queue.frames;
    assert fs == fs[..n] + fs[n..];
    PayloadBytesConcat(fs[..n], fs[n..]);
    PayloadBytesConcat(fs[n..], [g]);
    PayloadBytesConcat(r.pushed, [g]);
  }

  lemma PopConserves(r: Run)
    requires Conserved(r) && r.queue.frames != []
    ensures Conserved(Run(Pop(r.queue), r.pushed, r.popped + [r.queue.frames[0]]))
  {
    PayloadBytesConcat(r.popped, [r.queue.frames[0]]);
  }

  lemma {:induction false} RunConserves(q: Queue, ops: seq<Op>)
    requires q.Valid() && q == Reset(q)
    requires forall i :: 0 <= i < |ops| ==> ValidOp(ops[i])
    ensures Conserved(Execute(q, ops))
  {
    if ops != [] {
      var last := |ops| - 1;
      RunConserves(q, ops[..last]);
      var r := Execute(q, ops[..last]);
      match ops[last] {
        case PushOp(f) =>
          assert ValidOp(ops[last]) && r.popped + [] == r.popped;
          PushConserves(r, f);
        case PopOp =>
          assert r.pushed + [] == r.pushed && r.popped + [] == r.popped;
          if r.queue.frames != [] {
            PopConserves(r);
          }
      }
    }
  }
}
