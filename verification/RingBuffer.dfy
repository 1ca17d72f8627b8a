/**
  The byte ring of c_ffi/ring_buffer.c.  A frame is a six-byte header (kind, flags, four-byte payload
  length, least significant byte first) followed by its payload; frames lie end to end in a circular
  array, and both parts of a frame may wrap.  Every method is proved to act on the queue of frames
  that the ring holds as the function of the same name in `RingQueue` does.
*/
module RingBuffer {
  import opened RingQueue

  datatype Header = Header(kind: byte, flags: byte, len: uint32)

  datatype Status = Ok | Empty | TruncatedCopy | Error

  datatype PopResult = PopResult(status: Status, kind: byte, flags: byte, payload: seq<byte>)

  // ------------------------------------------------------------- frame layout

  function EncodeHeader(h: Header): (bs: seq<byte>)
    ensures |bs| == HEADER_SIZE
  {
    var n := h.len as int;
    [h.kind, h.flags, (n % 0x100) as byte, (n / 0x100 % 0x100) as byte,
     (n / 0x1_0000 % 0x100) as byte, (n / 0x100_0000) as byte]
  }

  function DecodeHeader(bs: seq<byte>): Header
    requires |bs| == HEADER_SIZE
  {
    Header(bs[0], bs[1],
           (bs[2] as int + 0x100 * bs[3] as int + 0x1_0000 * bs[4] as int + 0x100_0000 * bs[5] as int) as uint32)
  }

  lemma HeaderRoundTrip(h: Header)
    ensures DecodeHeader(EncodeHeader(h)) == h
  {
    WordFromBytes(h.len as int);
  }

  lemma WordFromBytes(n: int)
    requires 0 <= n < 0x1_0000_0000
    ensures n == n % 0x100 + 0x100 * (n / 0x100 % 0x100) + 0x1_0000 * (n / 0x1_0000 % 0x100) + 0x100_0000 * (n / 0x100_0000)
    ensures n / 0x100_0000 < 0x100
  {
    var m := n / 0x100;
    assert n == 0x100 * m + n % 0x100;
    assert m == 0x100 * (m / 0x100) + m % 0x100;
    assert n / 0x1_0000 == m / 0x100;
    assert n / 0x100_0000 == m / 0x100 / 0x100;
  }

  ghost function Encode(f: Frame): (bs: seq<byte>)
    requires |f.payload| < 0x1_0000_0000
    ensures |bs| == FrameSize(f)
  {
    EncodeHeader(Header(f.kind, f.flags, |f.payload| as uint32)) + f.payload
  }

  ghost predicate Storable(fs: seq<Frame>) {
    forall i :: 0 <= i < |fs| ==> |fs[i].payload| < 0x1_0000_0000
  }

  ghost function EncodeAll(fs: seq<Frame>): (bs: seq<byte>)
    requires Storable(fs)
    ensures |bs| == TotalSize(fs)
  {
    if fs == [] then [] else Encode(fs[0]) + EncodeAll(fs[1..])
  }

  lemma {:induction false} EncodeAllAppend(fs: seq<Frame>, f: Frame)
    requires Storable(fs) && |f.payload| < 0x1_0000_0000
    ensures Storable(fs + [f])
    ensures EncodeAll(fs + [f]) == EncodeAll(fs) + Encode(f)
  {
    if fs == [] {
      assert EncodeAll([f]) == Encode(f) + EncodeAll([]);
      assert fs + [f] == [f];
    } else {
      assert (fs + [f])[1..] == fs[1..] + [f];
      EncodeAllAppend(fs[1..], f);
    }
  }

  /** Two queues with the same bytes hold the same frames: headers and payloads cannot be confused. */
  lemma {:induction false} EncodeAllInjective(fs: seq<Frame>, gs: seq<Frame>)
    requires Storable(fs) && Storable(gs)
    requires EncodeAll(fs) == EncodeAll(gs)
    ensures fs == gs
  {
    if fs != [] && gs != [] {
      var bs := EncodeAll(fs);
      HeaderAtFront(fs);
      HeaderAtFront(gs);
      assert bs[FrameSize(fs[0])..] == EncodeAll(fs[1..]);
      assert bs[FrameSize(gs[0])..] == EncodeAll(gs[1..]);
      EncodeAllInjective(fs[1..], gs[1..]);
      assert fs[0].payload == bs[HEADER_SIZE..FrameSize(fs[0])];
      assert gs[0].payload == bs[HEADER_SIZE..FrameSize(gs[0])];
      assert fs == [fs[0]] + fs[1..] && gs == [gs[0]] + gs[1..];
    } else {
      OnlyEmptyHasNoSize(fs);
      OnlyEmptyHasNoSize(gs);
    }
  }

  /** The first bytes of a non-empty ring are the header of its oldest frame, then its payload. */
  lemma HeaderAtFront(fs: seq<Frame>)
    requires fs != [] && Storable(fs)
    ensures TotalSize(fs) == FrameSize(fs[0]) + TotalSize(fs[1..])
    ensures
      var bs := EncodeAll(fs);
      && DecodeHeader(bs[..HEADER_SIZE]) == Header(fs[0].kind, fs[0].flags, |fs[0].payload| as uint32)
      && bs[HEADER_SIZE..FrameSize(fs[0])] == fs[0].payload
      && bs[FrameSize(fs[0])..] == EncodeAll(fs[1..])
  {
    var h := Header(fs[0].kind, fs[0].flags, |fs[0].payload| as uint32);
    HeaderRoundTrip(h);
    assert EncodeAll(fs)[..HEADER_SIZE] == EncodeHeader(h);
  }

  // -------------------------------------------------------- circular addressing

  /** Position `x` taken around an array of `capacity` cells, for an `x` that passes its end at most once. */
  function Wrap(x: nat, capacity: nat): nat
    requires x < 2 * capacity
  {
    if x < capacity then x else x - capacity
  }

  lemma WrapIsModulo(x: nat, capacity: nat)
    requires x < 2 * capacity
    ensures x % capacity == Wrap(x, capacity)
  {
    if x >= capacity {
      assert x == capacity * 1 + (x - capacity);
    }
  }

  /** The `used` bytes that start at `tail` in the array contents `cells`. */
  ghost function Occupied(cells: seq<byte>, tail: nat, used: nat): (bs: seq<byte>)
    requires tail < |cells| && used <= |cells|
    ensures |bs| == used
  {
    if tail + used <= |cells| then cells[tail..tail + used]
    else cells[tail..] + cells[..tail + used - |cells|]
  }

  lemma OccupiedAt(cells: seq<byte>, tail: nat, used: nat, i: nat)
    requires tail < |cells| && i < used <= |cells|
    ensures Occupied(cells, tail, used)[i] == cells[Wrap(tail + i, |cells|)]
  {
  }

  /** The cells after `src` was copied to position `head`, going on from the front when it passes the end. */
  ghost predicate WrittenAt(cells: seq<byte>, cells': seq<byte>, head: nat, src: seq<byte>) {
    && |cells'| == |cells|
    && head <= |cells| && |src| <= |cells|
    && forall j {:trigger cells'[j]} :: 0 <= j < |cells| ==>
         cells'[j] == if head <= j < head + |src| then src[j - head]
                      else if j + |cells| < head + |src| then src[j + |cells| - head]
                      else cells[j]
  }

  /** Writing `src` in the free cells after the occupied ones appends it. */
  lemma WriteAppends(cells: seq<byte>, cells': seq<byte>, tail: nat, used: nat, src: seq<byte>)
    requires tail < |cells| && used + |src| <= |cells|
    requires WrittenAt(cells, cells', Wrap(tail + used, |cells|), src)
    ensures Occupied(cells', tail, used + |src|) == Occupied(cells, tail, used) + src
  {
    var left, right := Occupied(cells', tail, used + |src|), Occupied(cells, tail, used) + src;
    forall i | 0 <= i < used + |src|
      ensures left[i] == right[i]
    {
      WrittenAppends(cells, cells', tail, used, src, i);
    }
  }

  lemma WrittenAppends(cells: seq<byte>, cells': seq<byte>, tail: nat, used: nat, src: seq<byte>, i: nat)
    requires tail < |cells| && used + |src| <= |cells| && i < used + |src|
    requires WrittenAt(cells, cells', Wrap(tail + used, |cells|), src)
    ensures Occupied(cells', tail, used + |src|)[i] == if i < used then Occupied(cells, tail, used)[i] else src[i - used]
  {
    var n, at := |cells|, Wrap(tail + i, |cells|);
    assert Occupied(cells', tail, used + |src|)[i] == cells'[at] by {
      OccupiedAt(cells', tail, used + |src|, i);
    }
    if i < used {
      OccupiedAt(cells, tail, used, i);
      FreeOrOccupied(n, tail, used, |src|, i);
    } else {
      FreeCell(n, tail, used, |src|, i);
    }
  }

  /** An occupied cell is not among those written, ... */
  lemma FreeOrOccupied(capacity: nat, tail: nat, used: nat, n: nat, i: nat)
    requires tail < capacity && used + n <= capacity && i < used
    ensures
      var head, at := Wrap(tail + used, capacity), Wrap(tail + i, capacity);
      !(head <= at < head + n) && !(at + capacity < head + n)
  {
  }

  /** ... and every other cell is, where it should be. */
  lemma FreeCell(capacity: nat, tail: nat, used: nat, n: nat, i: nat)
    requires tail < capacity && used + n <= capacity && used <= i < used + n
    ensures
      var head, at := Wrap(tail + used, capacity), Wrap(tail + i, capacity);
      && at < capacity
      && (if head <= at < head + n then at - head == i - used else at + capacity < head + n && at + capacity - head == i - used)
  {
  }

  /** Moving the tail forward drops the first bytes. */
  lemma SkipDrops(cells: seq<byte>, tail: nat, used: nat, n: nat)
    requires tail < |cells| && n <= used <= |cells|
    ensures Occupied(cells, Wrap(tail + n, |cells|), used - n) == Occupied(cells, tail, used)[n..]
  {
    var tail' := Wrap(tail + n, |cells|);
    forall i | 0 <= i < used - n
      ensures Occupied(cells, tail', used - n)[i] == Occupied(cells, tail, used)[n..][i]
    {
      SkippedAt(cells, tail, used, n, i);
    }
  }

  lemma SkippedAt(cells: seq<byte>, tail: nat, used: nat, n: nat, i: nat)
    requires tail < |cells| && n <= used <= |cells| && i < used - n
    ensures Occupied(cells, Wrap(tail + n, |cells|), used - n)[i] == Occupied(cells, tail, used)[n + i]
  {
    var tail' := Wrap(tail + n, |cells|);
    assert Wrap(tail' + i, |cells|) == Wrap(tail + (n + i), |cells|);
    assert Occupied(cells, tail', used - n)[i] == cells[Wrap(tail' + i, |cells|)] by {
      OccupiedAt(cells, tail', used - n, i);
    }
    assert Occupied(cells, tail, used)[n + i] == cells[Wrap(tail + (n + i), |cells|)] by {
      OccupiedAt(cells, tail, used, n + i);
    }
  }

  // ------------------------------------------------------------------ the ring

  class RingBuffer {
    var buf: array?<byte>
    var capacity: nat
    var head: nat
    var tail: nat
    var used: nat
    var droppedMessages: nat
    var droppedBytes: nat

    ghost var frames: seq<Frame>

    /** The fields describe a stretch of `used` cells from `tail` up to `head`, perhaps around the end. */
    ghost predicate Shape()
      reads this
    {
      && buf != null
      && buf.Length == capacity
      && HEADER_SIZE < capacity
      && tail < capacity
      && used <= capacity
      && head == Wrap(tail + used, capacity)
    }

    /** The occupied bytes, oldest first. */
    ghost function Bytes(): (bs: seq<byte>)
      requires Shape()
      reads this, buf
      ensures |bs| == used
    {
      Occupied(buf[..], tail, used)
    }

    ghost predicate Valid()
      reads this, buf
    {
      && Shape()
      && Storable(frames)
      && Bytes() == EncodeAll(frames)
    }

    ghost function Contents(): (q: Queue)
      reads this
    {
      Queue(capacity, frames, droppedMessages, droppedBytes)
    }

    lemma ValidContents()
      requires Valid()
      ensures Contents().Valid()
      ensures used == TotalSize(frames)
    {
    }

    constructor ()
      ensures buf == null
    {
      buf := null;
      capacity, head, tail, used, droppedMessages, droppedBytes := 0, 0, 0, 0, 0, 0;
      frames := [];
    }

    method Init(capacityBytes: nat) returns (rc: int)
      modifies this
      ensures rc == if capacityBytes < HEADER_SIZE + 1 then -1 else 0
      ensures rc == -1 ==> unchanged(this)
      ensures rc == 0 ==> Valid() && fresh(buf) && Contents() == Queue(capacityBytes, [], 0, 0)
    {
      if capacityBytes < HEADER_SIZE + 1 {
        return -1;
      }
      buf := new byte[capacityBytes];
      capacity := capacityBytes;
      head, tail, used, droppedMessages, droppedBytes := 0, 0, 0, 0, 0;
      frames := [];
      return 0;
    }

    method Reset()
      requires Valid()
      modifies this
      ensures Valid() && buf == old(buf)
      ensures Contents() == RingQueue.Reset(old(Contents()))
    {
      head, tail, used, droppedMessages, droppedBytes := 0, 0, 0, 0, 0;
      frames := [];
    }

    /** memcpy into the array. */
    method Copy(at: nat, src: seq<byte>)
      requires buf != null && at + |src| <= buf.Length
      modifies buf
      ensures forall j :: 0 <= j < buf.Length ==>
                buf[j] == if at <= j < at + |src| then src[j - at] else old(buf[j])
    {
      forall i | 0 <= i < |src| { buf[at + i] := src[i]; }
    }

    /** Copies `src` in at `head`, in two pieces when it passes the end of the array. */
    method CopyAround(src: seq<byte>)
      requires buf != null && head <= buf.Length && |src| <= buf.Length
      modifies buf
      ensures WrittenAt(old(buf[..]), buf[..], head, src)
    {
      var n := |src|;
      var first := buf.Length - head;
      if first >= n {
        Copy(head, src);
      } else {
        Copy(head, src[..first]);
        Copy(0, src[first..]);
      }
    }

    method RingWrite(src: seq<byte>)
      requires Shape() && used + |src| <= capacity
      modifies this`head, this`used, buf
      ensures Shape()
      ensures used == old(used) + |src|
      ensures Bytes() == old(Bytes()) + src
    {
      var n := |src|;
      ghost var cells := buf[..];
      CopyAround(src);
      WriteAppends(cells, buf[..], tail, used, src);
      WrapIsModulo(head + n, capacity);
      head := (head + n) % capacity;
      used := used + n;
    }

    /** The next `n` bytes from the tail, which stays where it is. */
    method RingPeek(n: nat) returns (dst: seq<byte>)
      requires Shape() && n <= used
      ensures dst == Bytes()[..n]
    {
      var first := capacity - tail;
      if first >= n {
        dst := buf[tail..tail + n];
      } else {
        dst := buf[tail..] + buf[..n - first];
      }
    }

    method Skip(n: nat)
      requires Shape() && n <= used
      modifies this`tail, this`used
      ensures Shape()
      ensures used == old(used) - n
      ensures Bytes() == old(Bytes())[n..]
    {
      ghost var cells, rest := buf[..], Bytes()[n..];
      WrapIsModulo(tail + n, capacity);
      assert Occupied(cells, Wrap(tail + n, capacity), used - n) == rest by {
        SkipDrops(cells, tail, used, n);
      }
      tail := (tail + n) % capacity;
      used := used - n;
    }

    /** The header of the oldest frame. */
    method PeekHeader() returns (hdr: Header)
      requires Valid() && frames != []
      ensures hdr.kind == frames[0].kind && hdr.flags == frames[0].flags
      ensures hdr.len as nat == |frames[0].payload|
      ensures used >= FrameSize(frames[0])
      ensures Bytes()[HEADER_SIZE..FrameSize(frames[0])] == frames[0].payload
      ensures Bytes()[FrameSize(frames[0])..] == EncodeAll(frames[1..])
    {
      HeaderAtFront(frames);
      var bs := RingPeek(HEADER_SIZE);
      hdr := DecodeHeader(bs);
    }

    method RingRead(n: nat) returns (dst: seq<byte>)
      requires Shape() && n <= used
      modifies this`tail, this`used
      ensures Shape()
      ensures used == old(used) - n
      ensures dst == old(Bytes())[..n]
      ensures Bytes() == old(Bytes())[n..]
    {
      dst := RingPeek(n);
      Skip(n);
    }

    /** Forgets the oldest frame.  The two guards of the source never fire on a non-empty valid ring. */
    method DropOldest() returns (freed: nat)
      requires Valid()
      modifies this`tail, this`used, this`droppedMessages, this`droppedBytes, this`frames
      ensures Valid()
      ensures old(frames) == [] ==> freed == 0 && frames == [] && used == old(used) &&
                                    droppedMessages == old(droppedMessages) && droppedBytes == old(droppedBytes)
      ensures old(frames) != [] ==>
                && freed == FrameSize(old(frames)[0])
                && used == old(used) - freed
                && frames == old(frames)[1..]
                && droppedMessages == old(droppedMessages) + 1
                && droppedBytes == old(droppedBytes) + |old(frames)[0].payload|
    {
      OnlyEmptyHasNoSize(frames);
      if used < HEADER_SIZE {
        NoPartialFrame(frames);
        return 0;
      }
      var hdr := PeekHeader();
      var frameSize := HEADER_SIZE + hdr.len as nat;
      if used < frameSize {
        assert false;
      }
      Skip(frameSize);
      droppedMessages := droppedMessages + 1;
      droppedBytes := droppedBytes + hdr.len as nat;
      frames := frames[1..];
      return frameSize;
    }

    method WriteFrame(kind: byte, flags: byte, data: seq<byte>)
      requires Valid() && |data| < 0x1_0000_0000
      requires used + HEADER_SIZE + |data| <= capacity
      modifies this`head, this`used, this`frames, buf
      ensures Valid()
      ensures frames == old(frames) + [Frame(kind, flags, data)]
    {
      EncodeAllAppend(frames, Frame(kind, flags, data));
      RingWrite(EncodeHeader(Header(kind, flags, |data| as uint32)));
      RingWrite(data);
      frames := frames + [Frame(kind, flags, data)];
    }

    /** The eviction loop of an oversize push: drops until nothing is left. */
    method EvictAll()
      requires Valid()
      modifies this`tail, this`used, this`droppedMessages, this`droppedBytes, this`frames
      ensures Valid()
      ensures Dropped(old(Contents()), Contents(), EvictCount(old(frames), 0))
      ensures used == 0
    {
      ghost var q, n := Contents(), 0;
      DroppedNothing(q);
      while used > 0
        invariant Valid()
        invariant n <= EvictCount(q.frames, 0)
        invariant Dropped(q, Contents(), n)
        decreases used
      {
        OnlyEmptyHasNoSize(frames);
        DropMore(q, Contents(), 0, n);
        var _ := DropOldest();
        n := n + 1;
      }
      EvictsShortestPrefix(q.frames, 0, n);
    }

    /** The eviction loop of an ordinary push: drops until `frameSize` bytes are free. */
    method EvictFor(frameSize: nat)
      requires Valid() && frameSize <= capacity
      modifies this`tail, this`used, this`droppedMessages, this`droppedBytes, this`frames
      ensures Valid()
      ensures Dropped(old(Contents()), Contents(), EvictCount(old(frames), capacity - frameSize))
      ensures used + frameSize <= capacity
    {
      ghost var q, n, room := Contents(), 0, capacity - frameSize;
      DroppedNothing(q);
      var freeSpace := capacity - used;
      while freeSpace < frameSize
        invariant Valid()
        invariant freeSpace == capacity - used
        invariant n <= EvictCount(q.frames, room)
        invariant Dropped(q, Contents(), n)
        decreases used
      {
        OnlyEmptyHasNoSize(frames);
        DropMore(q, Contents(), room, n);
        var freed := DropOldest();
        n := n + 1;
        if freed == 0 {
          assert false;
        }
        freeSpace := capacity - used;
      }
      EvictsShortestPrefix(q.frames, room, n);
    }

    /** The part of a push that holds the lock. */
    method Store(kind: byte, flags: byte, data: seq<byte>)
      requires Valid() && |data| < 0x1_0000_0000
      modifies this, buf
      ensures buf == old(buf) && Valid()
      ensures Contents() == RingQueue.Push(old(Contents()), Frame(kind, flags, data))
    {
      ghost var q := Contents();
      var frameSize := HEADER_SIZE + |data|;
      var flags', data' := flags, data;
      if frameSize > capacity {
        EvictAll();
        flags', data' := SetTruncated(flags), data[..capacity - HEADER_SIZE];
      } else {
        EvictFor(frameSize);
      }
      ghost var mid := Contents();
      assert Frame(kind, flags', data') == Stored(capacity, Frame(kind, flags, data));
      WriteFrame(kind, flags', data');
      DropThenAppend(q, mid, Contents(), Frame(kind, flags, data));
    }

    method Push(kind: byte, flags: byte, data: seq<byte>) returns (rc: int)
      requires buf != null ==> Valid()
      requires |data| < 0x1_0000_0000
      modifies this, buf
      ensures rc == if old(buf) == null then -1 else 0
      ensures buf == old(buf)
      ensures rc == -1 ==> unchanged(this)
      ensures rc == 0 ==> Valid() && Contents() == RingQueue.Push(old(Contents()), Frame(kind, flags, data))
    {
      if buf == null {
        return -1;
      }
      Store(kind, flags, data);
      return 0;
    }

    method HasData() returns (has: bool)
      requires Valid()
      ensures has <==> frames != []
    {
      OnlyEmptyHasNoSize(frames);
      NoPartialFrame(frames);
      has := used >= HEADER_SIZE;
    }

    /** What a reader with `outCap` bytes of space gets of the frame `f`. */
    ghost function Delivered(f: Frame, outCap: nat): PopResult {
      if |f.payload| <= outCap then PopResult(Ok, f.kind, f.flags, f.payload)
      else PopResult(TruncatedCopy, f.kind, f.flags, f.payload[..outCap])
    }

    /** Hands out the oldest frame, cut to the caller's `outCap` bytes; the whole frame leaves the ring
        either way.  The result is never an error on an initialised ring. */
    method Pop(outCap: nat) returns (r: PopResult)
      requires buf != null ==> Valid()
      modifies this`tail, this`used, this`frames
      ensures buf == null ==> r.status == Error && unchanged(this)
      ensures buf != null ==> Valid()
      ensures buf != null && old(frames) == [] ==> r.status == Empty && unchanged(this)
      ensures buf != null && old(frames) != [] ==>
                && r == Delivered(old(frames)[0], outCap)
                && Contents() == RingQueue.Pop(old(Contents()))
    {
      if buf == null {
        return PopResult(Error, 0, 0, []);
      }
      NoPartialFrame(frames);
      if used < HEADER_SIZE {
        return PopResult(Empty, 0, 0, []);
      }
      r := TakeFrame(outCap);
    }

    method TakeFrame(outCap: nat) returns (r: PopResult)
      requires Valid() && frames != []
      modifies this`tail, this`used, this`frames
      ensures Valid()
      ensures r == Delivered(old(frames)[0], outCap)
      ensures frames == old(frames)[1..]
    {
      var hdr := PeekHeader();
      var len := hdr.len as nat;
      if used < HEADER_SIZE + len {
        assert false;
      }
      Skip(HEADER_SIZE);
      var out, whole := TakePayload(len, outCap);
      r := PopResult(if whole then Ok else TruncatedCopy, hdr.kind, hdr.flags, out);
      frames := frames[1..];
    }

    /** Copies what fits in `outCap` bytes of a `len`-byte payload and skips the rest. */
    method TakePayload(len: nat, outCap: nat) returns (out: seq<byte>, whole: bool)
      requires Shape() && len <= used
      modifies this`tail, this`used
      ensures Shape()
      ensures used == old(used) - len
      ensures whole <==> len <= outCap
      ensures out == old(Bytes())[..if whole then len else outCap]
      ensures Bytes() == old(Bytes())[len..]
    {
      if len <= outCap {
        out := RingRead(len);
        whole := true;
      } else {
        out := RingRead(outCap);
        Skip(len - outCap);
        whole := false;
      }
    }
  }

  lemma NoPartialFrame(fs: seq<Frame>)
    ensures fs != [] <==> TotalSize(fs) >= HEADER_SIZE
  {
  }

  // --------------------------------------------------- the eviction loop, step by step

  /** Exactly the first `n` frames are gone, and they are counted. */
  ghost predicate Dropped(q: Queue, now: Queue, n: nat) {
    && n <= |q.frames|
    && now == Queue(q.capacity, q.frames[n..], q.droppedMessages + n, q.droppedBytes + PayloadBytes(q.frames[..n]))
  }

  lemma DroppedNothing(q: Queue)
    ensures Dropped(q, q, 0)
  {
    assert q.frames[0..] == q.frames && q.frames[..0] == [];
  }

  lemma DropMore(q: Queue, now: Queue, room: nat, n: nat)
    requires n <= EvictCount(q.frames, room)
    requires Dropped(q, now, n) && TotalSize(now.frames) > room
    ensures n + 1 <= EvictCount(q.frames, room)
    ensures now.frames != []
    ensures Dropped(q, Queue(now.capacity, now.frames[1..], now.droppedMessages + 1,
                             now.droppedBytes + |now.frames[0].payload|), n + 1)
  {
    EvictsShortestPrefix(q.frames, room, n);
    assert q.frames[..n + 1] == q.frames[..n] + [q.frames[n]];
    PayloadBytesConcat(q.frames[..n], [q.frames[n]]);
    SizeOfOne(q.frames[n]);
    assert now.frames[1..] == q.frames[n + 1..];
  }

  lemma DropThenAppend(q: Queue, mid: Queue, now: Queue, f: Frame)
    requires HEADER_SIZE < q.capacity
    requires Dropped(q, mid, EvictCount(q.frames, q.capacity - FrameSize(Stored(q.capacity, f))))
    requires now == mid.(frames := mid.frames + [Stored(q.capacity, f)])
    ensures now == Push(q, f)
  {
  }
}
