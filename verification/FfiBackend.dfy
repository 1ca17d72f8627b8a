/**
  The frontend's side of the bridge to R (lib/ffi_backend.ml): when a command may start, which
  output is shown, and what becomes of each message read from the ring.
*/
module FfiBackend {
  import opened Wrappers
  import opened RingQueue
  import RingBuffer
  import opened WorkerSlots

  const STDOUT: byte := 0
  const STDERR: byte := 1
  const DONE: byte := 5
  const PASSTHROUGH: byte := 8
  const PASSTHROUGH_END: byte := 9
  const COMPLETIONS: byte := 10
  const READLINE: byte := 11

  /** The size of the buffer into which the bindings pop a frame. */
  const POP_CAPACITY: nat := 1024 * 1024

  datatype Command = User(code: string) | Background(code: string)

  /** What the rest of the frontend sees of R.  `Message` stands for every chunk that is decoded from a
      single frame by its kind. */
  datatype Chunk = Stdout(text: seq<byte>) | Done | Message(kind: byte, payload: seq<byte>)

  datatype Frontend = Frontend(
    ready: bool,
    busy: bool,
    suppressing: bool,
    pending: seq<Command>,
    stashed: Option<Frame>,
    startupOutput: Option<seq<byte>>)

  /** A new frontend state, together with a command handed to the worker on the way. */
  datatype Started = Started(fe: Frontend, sent: Option<string>)

  const INITIAL := Frontend(false, false, false, [], None, None)

  function StartEval(fe: Frontend, code: string): Started {
    Started(fe.(busy := true), Some(code))
  }

  function FlushPending(fe: Frontend): Started {
    if fe.pending == [] then Started(fe, None)
    else
      var rest := fe.(pending := fe.pending[1..]);
      match fe.pending[0]
      case User(code) => StartEval(rest.(suppressing := false), code)
      case Background(code) => StartEval(rest.(suppressing := true), code)
  }

  function Submit(fe: Frontend, code: string): Started {
    var fe := fe.(suppressing := false);
    if fe.ready && !fe.busy then StartEval(fe, code)
    else Started(fe.(pending := fe.pending + [User(code)]), None)
  }

  function BackgroundSubmit(fe: Frontend, code: string): Started {
    if fe.ready && !fe.busy then StartEval(fe.(suppressing := true), code)
    else Started(fe.(pending := fe.pending + [Background(code)]), None)
  }

  /** R has started: keep what it printed meanwhile and start the first command that waited. */
  function InitDone(fe: Frontend, output: seq<byte>): Started {
    FlushPending(fe.(ready := true, startupOutput := if output == [] then fe.startupOutput else Some(output)))
  }

  function HandleDone(fe: Frontend): Started {
    FlushPending(fe.(busy := false, suppressing := false))
  }

  /** What the wait for a response does next. */
  datatype Next = Continue | Drain(text: seq<byte>) | Return(chunk: Chunk)

  datatype Outcome = Outcome(fe: Frontend, sent: Option<string>, next: Next)

  predicate Suppressed(fe: Frontend, m: Frame) {
    fe.suppressing && m.kind !in {DONE, PASSTHROUGH, PASSTHROUGH_END, COMPLETIONS, READLINE, 12}
  }

  /** The message loop's treatment of one message. */
  function Handle(fe: Frontend, m: Frame): Outcome {
    if Suppressed(fe, m) then Outcome(fe, None, Continue)
    else if m.kind == STDOUT || m.kind == STDERR then Outcome(fe, None, Drain(m.payload))
    else if m.kind == DONE then
      var s := HandleDone(fe);
      Outcome(s.fe, s.sent, if s.fe.busy || fe.suppressing then Continue else Return(Done))
    else Outcome(fe, None, Return(Message(m.kind, m.payload)))
  }

  /** Collecting consecutive output into one chunk: the first other message is put aside. */
  function HandleDraining(fe: Frontend, text: seq<byte>, m: Option<Frame>): Outcome {
    if m.Some? && (m.value.kind == STDOUT || m.value.kind == STDERR)
    then Outcome(fe, None, Drain(text + m.value.payload))
    else Outcome(fe.(stashed := m), None, Return(Stdout(text)))
  }

  // ------------------------------------------------- a wait with no one else at work

  datatype Waited = Waited(fe: Frontend, slots: Slots, frames: seq<Frame>, result: Option<Chunk>)

  function Send(slots: Slots, sent: Option<string>): Slots {
    if sent.Some? then PutCommand(slots, sent.value) else slots
  }

  /** All that `await_response` does before it returns a chunk or goes to sleep on an empty ring. */
  function Await(fe: Frontend, slots: Slots, frames: seq<Frame>): Waited {
    if fe.startupOutput.Some? then
      Waited(fe.(startupOutput := None), slots, frames, Some(Stdout(fe.startupOutput.value)))
    else if fe.stashed.Some? then AwaitMessage(fe.(stashed := None), slots, frames, fe.stashed)
    else AwaitMessage(fe, slots, Rest(frames), First(frames))
  }

  function First(frames: seq<Frame>): Option<Frame> {
    if frames == [] then None else Some(frames[0])
  }

  function Rest(frames: seq<Frame>): seq<Frame> {
    if frames == [] then [] else frames[1..]
  }

  /** From the point where the loop has popped `m`. */
  function AwaitMessage(fe: Frontend, slots: Slots, frames: seq<Frame>, m: Option<Frame>): Waited
    decreases |frames|, m.Some?
  {
    if m.None? then Waited(fe, slots, frames, None)
    else
      var o := Handle(fe, m.value);
      match o.next
      case Continue => AwaitMessage(o.fe, Send(slots, o.sent), Rest(frames), First(frames))
      case Drain(text) => AwaitDrain(o.fe, slots, Rest(frames), text, First(frames))
      case Return(c) => Waited(o.fe, Send(slots, o.sent), frames, Some(c))
  }

  function AwaitDrain(fe: Frontend, slots: Slots, frames: seq<Frame>, text: seq<byte>, m: Option<Frame>): Waited
    decreases |frames|, m.Some?
  {
    var o := HandleDraining(fe, text, m);
    match o.next
    case Drain(text') => AwaitDrain(o.fe, slots, Rest(frames), text', First(frames))
    case Return(c) => Waited(o.fe, slots, frames, Some(c))
    case Continue => Waited(o.fe, slots, frames, None)
  }

  // ----------------------------------------------------------------- the record

  class Backend {
    var ready: bool
    var busy: bool
    var suppressing: bool
    var pending: seq<Command>
    var stashed: Option<Frame>
    var pendingStartupOutput: Option<seq<byte>>
    const slots: RequestSlots
    const ring: RingBuffer.RingBuffer

    ghost function State(): Frontend
      reads this
    {
      Frontend(ready, busy, suppressing, pending, stashed, pendingStartupOutput)
    }

    ghost predicate Valid()
      reads this, ring, ring.buf
    {
      ring.buf != null && ring.Valid() && ring.capacity <= POP_CAPACITY
    }

    constructor (slots: RequestSlots, ring: RingBuffer.RingBuffer)
      ensures State() == INITIAL && this.slots == slots && this.ring == ring
    {
      this.slots, this.ring := slots, ring;
      ready, busy, suppressing, pending := false, false, false, [];
      stashed, pendingStartupOutput := None, None;
    }

    method DoStartEval(code: string)
      modifies this`busy, slots
      ensures State() == StartEval(old(State()), code).fe
      ensures slots.Contents() == PutCommand(old(slots.Contents()), code)
    {
      busy := true;
      slots.Submit(code);
    }

    method DoFlushPending()
      modifies this`busy, this`suppressing, this`pending, slots
      ensures State() == FlushPending(old(State())).fe
      ensures slots.Contents() == Send(old(slots.Contents()), FlushPending(old(State())).sent)
    {
      if pending == [] {
        return;
      }
      var c := pending[0];
      pending := pending[1..];
      match c {
        case User(code) =>
          suppressing := false;
          DoStartEval(code);
        case Background(code) =>
          suppressing := true;
          DoStartEval(code);
      }
    }

    method DoInitDone(output: seq<byte>)
      modifies this, slots
      ensures State() == InitDone(old(State()), output).fe
      ensures slots.Contents() == Send(old(slots.Contents()), InitDone(old(State()), output).sent)
    {
      ready := true;
      if output != [] {
        pendingStartupOutput := Some(output);
      }
      DoFlushPending();
    }

    method DoSubmit(code: string)
      modifies this, slots
      ensures State() == Submit(old(State()), code).fe
      ensures slots.Contents() == Send(old(slots.Contents()), Submit(old(State()), code).sent)
    {
      suppressing := false;
      if ready && !busy {
        DoStartEval(code);
      } else {
        pending := pending + [User(code)];
      }
    }

    method DoBackgroundSubmit(code: string)
      modifies this, slots
      ensures State() == BackgroundSubmit(old(State()), code).fe
      ensures slots.Contents() == Send(old(slots.Contents()), BackgroundSubmit(old(State()), code).sent)
    {
      if ready && !busy {
        suppressing := true;
        DoStartEval(code);
      } else {
        pending := pending + [Background(code)];
      }
    }

    method DoRequestCompletions(input: string, cursorPos: int)
      modifies slots
      ensures slots.Contents() == if ready && !busy
                                  then PutCompletion(old(slots.Contents()), LineRequest(input, cursorPos))
                                  else old(slots.Contents())
    {
      if ready && !busy {
        slots.RequestCompletions(input, cursorPos);
      }
    }

    method DoRequestColumns(objectName: string)
      modifies slots
      ensures slots.Contents() == if ready && !busy then PutColumns(old(slots.Contents()), objectName)
                                  else old(slots.Contents())
    {
      if ready && !busy {
        slots.RequestColumns(objectName);
      }
    }

    method DoHandleDone()
      modifies this`busy, this`suppressing, this`pending, slots
      ensures State() == HandleDone(old(State())).fe
      ensures slots.Contents() == Send(old(slots.Contents()), HandleDone(old(State())).sent)
    {
      busy := false;
      suppressing := false;
      DoFlushPending();
    }

    /** The popped frame arrives whole: the reader's buffer is as large as the ring. */
    method PopRing() returns (m: Option<Frame>)
      requires Valid()
      modifies ring`tail, ring`used, ring`frames
      ensures Valid()
      ensures m == First(old(ring.frames)) && ring.frames == Rest(old(ring.frames))
    {
      ring.ValidContents();
      var r := ring.Pop(POP_CAPACITY);
      if r.status == RingBuffer.Empty || r.status == RingBuffer.Error {
        m := None;
      } else {
        m := Some(Frame(r.kind, r.flags, r.payload));
      }
    }

    method AwaitResponse() returns (r: Option<Chunk>)
      requires Valid()
      modifies this, slots, ring`tail, ring`used, ring`frames
      ensures Valid()
      ensures
        var w := Await(old(State()), old(slots.Contents()), old(ring.frames));
        State() == w.fe && slots.Contents() == w.slots && ring.frames == w.frames && r == w.result
    {
      if pendingStartupOutput.Some? {
        r := Some(Stdout(pendingStartupOutput.value));
        pendingStartupOutput := None;
        return;
      }
      var m := stashed;
      stashed := None;
      if m.None? {
        m := PopRing();
      }
      r := DoLoop(m);
    }

    method DoLoop(popped: Option<Frame>) returns (r: Option<Chunk>)
      requires Valid()
      modifies this, slots, ring`tail, ring`used, ring`frames
      ensures Valid()
      ensures
        var w := AwaitMessage(old(State()), old(slots.Contents()), old(ring.frames), popped);
        State() == w.fe && slots.Contents() == w.slots && ring.frames == w.frames && r == w.result
      decreases |ring.frames|, popped.Some?
    {
      if popped.None? {
        return None;
      }
      var next := DoHandle(popped.value);
      match next {
        case Continue =>
          var m := PopRing();
          r := DoLoop(m);
        case Drain(text) =>
          var m := PopRing();
          r := DoDrain(text, m);
        case Return(chunk) =>
          r := Some(chunk);
      }
    }

    /** One turn of the message loop, after the pop. */
    method DoHandle(m: Frame) returns (next: Next)
      modifies this`busy, this`suppressing, this`pending, slots
      ensures
        var o := Handle(old(State()), m);
        State() == o.fe && slots.Contents() == Send(old(slots.Contents()), o.sent) && next == o.next
    {
      var kind, payload := m.kind, m.payload;
      if suppressing && kind !in {DONE, PASSTHROUGH, PASSTHROUGH_END, COMPLETIONS, READLINE, 12} {
        next := Continue;
      } else if kind == STDOUT || kind == STDERR {
        next := Drain(payload);
      } else if kind == DONE {
        var wasSuppressing := suppressing;
        DoHandleDone();
        next := if busy || wasSuppressing then Continue else Return(Done);
      } else {
        next := Return(Message(kind, payload));
      }
    }

    /** Adds up output until something else, `m` being the first message to look at. */
    method DoDrain(first: seq<byte>, popped: Option<Frame>) returns (r: Option<Chunk>)
      requires Valid()
      modifies this`stashed, ring`tail, ring`used, ring`frames
      ensures Valid()
      ensures
        var w := AwaitDrain(old(State()), slots.Contents(), old(ring.frames), first, popped);
        State() == w.fe && slots.Contents() == w.slots && ring.frames == w.frames && r == w.result
    {
      ghost var w := AwaitDrain(State(), slots.Contents(), ring.frames, first, popped);
      var text, m := first, popped;
      while m.Some? && (m.value.kind == STDOUT || m.value.kind == STDERR)
        invariant Valid() && unchanged(this)
        invariant w == AwaitDrain(State(), slots.Contents(), ring.frames, text, m)
        decreases |ring.frames|, m.Some?
      {
        text := text + m.value.payload;
        m := PopRing();
      }
      stashed := m;
      r := Some(Stdout(text));
    }
  }
}
