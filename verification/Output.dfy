/**
  What becomes of every message over a whole run of `Protocol`: each is shown, held, hidden or lost, and what is shown is
  shown in the order in which it was written.

  The log beside the system is written by looking at what is pushed and popped; it says nothing of how the wait adds up
  text.
*/
module Output {
  import opened Wrappers
  import opened RingQueue
  import opened WorkerSlots
  import opened FfiBackend
  import opened Protocol
  import opened Waiting

  // ----------------------------------------------------------------- parts of a sequence, in order

  /** `a` is `b` without some of its elements. */
  ghost predicate PartOf(a: seq<Frame>, b: seq<Frame>) {
    if b == [] then a == []
    else
      var n := |b| - 1;
      || PartOf(a, b[..n])
      || (a != [] && a[|a| - 1] == b[n] && PartOf(a[..|a| - 1], b[..n]))
  }

  lemma {:induction false} BothLonger(a: seq<Frame>, b: seq<Frame>, x: Frame)
    requires PartOf(a, b)
    ensures PartOf(a + [x], b + [x])
  {
    assert (a + [x])[..|a|] == a && (b + [x])[..|b|] == b;
  }

  lemma {:induction false} OneLonger(a: seq<Frame>, b: seq<Frame>, x: Frame)
    requires PartOf(a, b)
    ensures PartOf(a, b + [x])
  {
    assert (b + [x])[..|b|] == b;
  }

  lemma {:induction false} AllIsPart(a: seq<Frame>)
    ensures PartOf(a, a)
  {
    if a != [] {
      AllIsPart(a[..|a| - 1]);
    }
  }

  lemma {:induction false} PartOfPart(a: seq<Frame>, b: seq<Frame>, c: seq<Frame>)
    requires PartOf(a, b) && PartOf(b, c)
    ensures PartOf(a, c)
    decreases |c|
  {
    if c != [] && b != [] {
      var m, n := |b| - 1, |c| - 1;
      if PartOf(b, c[..n]) {
        PartOfPart(a, b, c[..n]);
      } else if PartOf(a, b[..m]) {
        PartOfPart(a, b[..m], c[..n]);
      } else {
        PartOfPart(a[..|a| - 1], b[..m], c[..n]);
      }
    }
  }

  /** Leaving out a stretch. */
  lemma {:induction false} WithoutMiddle(a: seq<Frame>, middle: seq<Frame>, c: seq<Frame>)
    ensures PartOf(a + c, a + middle + c)
    decreases |c|, |middle|
  {
    if c != [] {
      var n := |c| - 1;
      WithoutMiddle(a, middle, c[..n]);
      BothLonger(a + c[..n], a + middle + c[..n], c[n]);
      assert a + c[..n] + [c[n]] == a + c && a + middle + c[..n] + [c[n]] == a + middle + c;
    } else if middle != [] {
      var n := |middle| - 1;
      WithoutMiddle(a, middle[..n], c);
      OneLonger(a + c, a + middle[..n] + c, middle[n]);
      assert a + middle[..n] + c + [middle[n]] == a + middle + c;
    } else {
      AllIsPart(a);
      assert a + c == a && a + middle + c == a;
    }
  }

  lemma {:induction false} PartIsShorter(a: seq<Frame>, b: seq<Frame>)
    requires PartOf(a, b)
    ensures |a| <= |b| && (|a| == |b| ==> a == b)
    decreases |b|
  {
    if b != [] {
      var n := |b| - 1;
      if PartOf(a, b[..n]) {
        PartIsShorter(a, b[..n]);
      } else {
        PartIsShorter(a[..|a| - 1], b[..n]);
        assert |a| == |b| ==> a == a[..n] + [a[n]] && b == b[..n] + [b[n]];
      }
    }
  }

  // ----------------------------------------------------------------------- what is said

  /** What the rest of the frontend is told: bytes of text, and messages of other kinds. */
  datatype Word = Letter(b: byte) | Told(kind: byte, payload: seq<byte>)

  function Letters(text: seq<byte>): seq<Word> {
    seq(|text|, i requires 0 <= i < |text| => Letter(text[i]))
  }

  function Said(chunks: seq<Chunk>): seq<Word> {
    if chunks == [] then []
    else
      var last := |chunks| - 1;
      Said(chunks[..last]) +
        match chunks[last]
        case Stdout(text) => Letters(text)
        case Done => []
        case Message(kind, payload) => [Told(kind, payload)]
  }

  function SaidByFrame(f: Frame): seq<Word> {
    if IsOutput(f) then Letters(f.payload) else if f.kind == 5 then [] else [Told(f.kind, f.payload)]
  }

  function SaidBy(frames: seq<Frame>): seq<Word> {
    if frames == [] then [] else SaidBy(frames[..|frames| - 1]) + SaidByFrame(frames[|frames| - 1])
  }

  // ---------------------------------------------------------------------------- the log

  /** All that was written, as it was stored; what the frontend took to show it; how many messages it took to hide
      them; and how many were evicted or discarded. */
  datatype Log = Log(written: seq<Frame>, taken: seq<Frame>, hidden: nat, lost: nat)

  const NOTHING := Log([], [], 0, 0)

  /** What the worker pushes. */
  function PushedBy(a: Action): Option<Frame> {
    match a
    case Writes(f) => Some(f)
    case AsksInput(prompt) => Some(Frame(READLINE, 0, prompt))
    case EntersPassthrough => Some(Frame(PASSTHROUGH, 0, []))
    case FinishesEval => Some(Frame(DONE, 0, []))
    case FinishesCompletion(answer) => Some(Frame(COMPLETIONS, 0, answer))
    case _ => None
  }

  function Startup(output: Option<seq<byte>>): seq<Frame> {
    if output.Some? then [Frame(STDOUT, 0, output.value)] else []
  }

  function PutAside(fe: Frontend): seq<Frame> {
    if fe.stashed.Some? then [fe.stashed.value] else []
  }

  /** Written and not yet taken. */
  function Held(s: System): seq<Frame> {
    Startup(s.fe.startupOutput) + PutAside(s.fe) + s.ring.frames
  }

  function Taking(log: Log, s: System): Log {
    if s.waiter.Resting? && s.fe.startupOutput.Some? then log.(taken := log.taken + Startup(s.fe.startupOutput))
    else
      match Popped(s)
      case None => log
      case Some(m) =>
        if s.waiter.Draining? then if IsOutput(m) then log.(taken := log.taken + [m]) else log
        else if Suppressed(s.fe, m) then log.(hidden := log.hidden + 1)
        else log.(taken := log.taken + [m])
  }

  function Record(log: Log, s: System, a: Action): Log
    requires HEADER_SIZE < s.ring.capacity && Enabled(s, a)
  {
    match a
    case InitReturns(output) => if output == [] then log else log.(written := log.written + [Frame(STDOUT, 0, output)])
    case ResetsRing => log.(lost := log.lost + |s.ring.frames|)
    case Waits => Taking(log, s)
    case _ =>
      if PushedBy(a).None? then log
      else
        var f := PushedBy(a).value;
        WithPushed(log, Stored(s.ring.capacity, f), if Gone(s, f) >= 0 then Gone(s, f) else 0)
  }

  ghost function LogOf(log: Log, s: System, run: seq<Action>, t: System): Log
    requires Leads(s, run, t)
    decreases |run|
  {
    if run == [] then log else LogOf(Record(log, s, run[0]), Step(s, run[0]), run[1..], t)
  }

  // -------------------------------------------------------------------- what every step keeps

  /** Nothing is written before R is ready, and output is added up only while it is shown. */
  ghost predicate Calm(s: System) {
    && (!s.fe.ready ==>
          Held(s) == [] && s.waiter.Resting? && s.slots == EMPTY && (s.worker.Starting? || s.worker.Idle?))
    && (s.waiter.Draining? ==> s.fe.startupOutput.None? && s.fe.stashed.None? && !s.fe.suppressing)
  }

  function Collected(w: Waiter): seq<byte> {
    match w
    case Resting => []
    case Draining(text) => text
  }

  ghost predicate InOrderOfWriting(log: Log, s: System) {
    PartOf(log.taken + Held(s), log.written)
  }

  ghost predicate AllAccountedFor(log: Log, s: System) {
    |log.written| == |log.taken| + |Held(s)| + log.hidden + log.lost
  }

  ghost predicate ShownAsTaken(log: Log, s: System) {
    Said(s.returned) + Letters(Collected(s.waiter)) == SaidBy(log.taken)
  }

  ghost predicate Faithful(log: Log, s: System) {
    InOrderOfWriting(log, s) && AllAccountedFor(log, s) && ShownAsTaken(log, s)
  }

  lemma SaidMore(chunks: seq<Chunk>, c: Chunk)
    ensures Said(chunks + [c]) == Said(chunks) + Said([c])
  {
    assert (chunks + [c])[..|chunks|] == chunks;
    assert [c][..0] == [];
  }

  lemma SaidByMore(frames: seq<Frame>, f: Frame)
    ensures SaidBy(frames + [f]) == SaidBy(frames) + SaidByFrame(f)
  {
    assert (frames + [f])[..|frames|] == frames;
  }

  lemma LettersConcat(a: seq<byte>, b: seq<byte>)
    ensures Letters(a + b) == Letters(a) + Letters(b)
  {
  }

  /** Nothing pushed, nothing popped. */
  lemma NothingFlows(log: Log, s: System, s': System)
    requires Faithful(log, s)
    requires Held(s') == Held(s) && s'.returned == s.returned && s'.waiter == s.waiter
    ensures Faithful(log, s')
  {
  }

  lemma StartupFlows(log: Log, s: System, output: seq<byte>)
    requires Faithful(log, s) && Calm(s) && Enabled(s, InitReturns(output)) && HEADER_SIZE < s.ring.capacity
    ensures Faithful(Record(log, s, InitReturns(output)), Step(s, InitReturns(output)))
  {
    var s', f := Step(s, InitReturns(output)), Frame(STDOUT, 0, output);
    assert Held(s) == [] && log.taken + [] == log.taken;
    if output == [] {
      NothingFlows(log, s, s');
    } else {
      assert Held(s') == [f];
      BothLonger(log.taken, log.written, f);
    }
  }

  lemma PushedPart(front: seq<Frame>, frames: seq<Frame>, n: nat, g: Frame, written: seq<Frame>)
    requires n <= |frames| && PartOf(front + frames, written)
    ensures PartOf(front + (frames[n..] + [g]), written + [g])
  {
    assert front + frames == front + frames[..n] + frames[n..];
    WithoutMiddle(front, frames[..n], frames[n..]);
    PartOfPart(front + frames[n..], front + frames, written);
    BothLonger(front + frames[n..], written, g);
    assert front + frames[n..] + [g] == front + (frames[n..] + [g]);
  }

  /** What is ahead of the ring. */
  function Ahead(fe: Frontend): seq<Frame> {
    Startup(fe.startupOutput) + PutAside(fe)
  }

  lemma AheadOfRing(log: Log, s: System)
    ensures log.taken + Held(s) == log.taken + Ahead(s.fe) + s.ring.frames
    ensures |Held(s)| == |Ahead(s.fe)| + |s.ring.frames|
  {
  }

  lemma PushedRing(s: System, f: Frame) returns (n: nat)
    requires Inv(s) && s.worker.Running? && |f.payload| < 0x1_0000_0000
    ensures
      var s' := PushFrame(s, f);
      && n <= |s.ring.frames| && s'.ring.frames == s.ring.frames[n..] + [Stored(s.ring.capacity, f)]
      && s'.fe == s.fe && s'.waiter == s.waiter && s'.returned == s.returned
  {
    n := PushedFrames(s.ring, f);
  }

  function Gone(s: System, f: Frame): int
    requires HEADER_SIZE < s.ring.capacity
  {
    |s.ring.frames| + 1 - |Push(s.ring, f).frames|
  }

  function WithPushed(log: Log, g: Frame, gone: nat): Log {
    log.(written := log.written + [g], lost := log.lost + gone)
  }

  /** A push: the oldest frames of the ring may go. */
  lemma PushFlows(log: Log, s: System, f: Frame)
    requires Faithful(log, s) && Inv(s) && s.worker.Running? && |f.payload| < 0x1_0000_0000
    ensures Gone(s, f) >= 0 && Faithful(WithPushed(log, Stored(s.ring.capacity, f), Gone(s, f)), PushFrame(s, f))
  {
    var s', g := PushFrame(s, f), Stored(s.ring.capacity, f);
    var n := PushedRing(s, f);
    var log' := WithPushed(log, g, n);
    AheadOfRing(log, s);
    AheadOfRing(log', s');
    PushedPart(log.taken + Ahead(s.fe), s.ring.frames, n, g, log.written);
  }

  lemma ResetFlows(log: Log, s: System)
    requires Faithful(log, s) && Enabled(s, ResetsRing) && HEADER_SIZE < s.ring.capacity
    ensures Faithful(Record(log, s, ResetsRing), Step(s, ResetsRing))
  {
    var s', front := Step(s, ResetsRing), log.taken + Ahead(s.fe);
    AheadOfRing(log, s);
    AheadOfRing(log, s');
    assert front + s.ring.frames == front + s.ring.frames + [] && front + [] == front;
    WithoutMiddle(front, s.ring.frames, []);
    PartOfPart(front, front + s.ring.frames, log.written);
  }

  // ------------------------------------------------------------------- turns of the wait

  /** A message is shown. */
  lemma TakenFlows(log: Log, s: System, s': System, m: Frame)
    requires Faithful(log, s) && Held(s) == [m] + Held(s')
    requires Said(s'.returned) + Letters(Collected(s'.waiter)) == Said(s.returned) + Letters(Collected(s.waiter)) + SaidByFrame(m)
    ensures Faithful(log.(taken := log.taken + [m]), s')
  {
    assert log.taken + Held(s) == log.taken + [m] + Held(s');
    SaidByMore(log.taken, m);
  }

  /** A message is hidden. */
  lemma {:induction false} HiddenFlows(log: Log, s: System, s': System, m: Frame)
    requires Faithful(log, s) && Held(s) == [m] + Held(s')
    requires s'.returned == s.returned && s'.waiter == s.waiter
    ensures Faithful(log.(hidden := log.hidden + 1), s')
  {
    WithoutOne(log.taken, m, Held(s'), log.written);
  }

  lemma {:induction false} WithoutOne(a: seq<Frame>, m: Frame, c: seq<Frame>, written: seq<Frame>)
    requires PartOf(a + ([m] + c), written)
    ensures PartOf(a + c, written)
  {
    assert a + ([m] + c) == a + [m] + c;
    WithoutMiddle(a, [m], c);
    PartOfPart(a + c, a + ([m] + c), written);
  }

  lemma ReturnedMore(s: System, s': System, c: Chunk)
    requires s'.returned == s.returned + [c] && s'.waiter.Resting?
    ensures Said(s'.returned) + Letters(Collected(s'.waiter)) == Said(s.returned) + Said([c])
  {
    SaidMore(s.returned, c);
  }

  lemma SaidOne(c: Chunk)
    ensures Said([c]) == match c
                         case Stdout(text) => Letters(text)
                         case Done => []
                         case Message(kind, payload) => [Told(kind, payload)]
  {
    assert [c][..0] == [];
  }

  /** While output is added up, more of it comes. */
  lemma MoreOutputFlows(log: Log, s: System)
    requires Faithful(log, s) && Calm(s) && s.waiter.Draining?
    requires s.ring.frames != [] && IsOutput(s.ring.frames[0])
    ensures Faithful(Taking(log, s), AfterWait(s))
  {
    var s', text, m := AfterWait(s), s.waiter.text, s.ring.frames[0];
    MoreOutputTurn(s);
    MoreLetters(Said(s.returned), text, m.payload);
    TakenFlows(log, s, s', m);
  }

  lemma MoreLetters(said: seq<Word>, text: seq<byte>, payload: seq<byte>)
    ensures said + Letters(text + payload) == said + Letters(text) + Letters(payload)
  {
    LettersConcat(text, payload);
  }

  lemma MoreOutputTurn(s: System)
    requires Calm(s) && s.waiter.Draining?
    requires s.ring.frames != [] && IsOutput(s.ring.frames[0])
    ensures
      var s', m := AfterWait(s), s.ring.frames[0];
      && Held(s) == [m] + Held(s') && s'.returned == s.returned
      && s'.waiter == Draining(s.waiter.text + m.payload)
  {
    CollectingTurn(s);
    assert s.returned + [] == s.returned;
  }

  /** Or something else comes, or nothing. */
  lemma CollectedFlows(log: Log, s: System)
    requires Faithful(log, s) && Calm(s) && s.waiter.Draining?
    requires s.ring.frames == [] || !IsOutput(s.ring.frames[0])
    ensures Faithful(Taking(log, s), AfterWait(s))
  {
    var s', text := AfterWait(s), s.waiter.text;
    CollectingTurn(s);
    assert Held(s') == Held(s);
    ReturnedMore(s, s', Stdout(text));
    SaidOne(Stdout(text));
  }

  /** A message that is returned as a chunk at once. */
  lemma ChunkFlows(log: Log, s: System, s': System, m: Frame, c: Chunk)
    requires Faithful(log, s) && Held(s) == [m] + Held(s') && s.waiter.Resting? && s'.waiter.Resting?
    requires s'.returned == s.returned + [c] && Said([c]) == SaidByFrame(m)
    ensures Faithful(log.(taken := log.taken + [m]), s')
  {
    ReturnedMore(s, s', c);
    assert Letters([]) == [];
    TakenFlows(log, s, s', m);
  }

  lemma StartupTurn(s: System)
    requires s.waiter.Resting? && s.fe.startupOutput.Some?
    ensures
      var s', output := AfterWait(s), s.fe.startupOutput.value;
      && Held(s) == [Frame(STDOUT, 0, output)] + Held(s')
      && s'.returned == s.returned + [Stdout(output)] && s'.waiter.Resting?
  {
  }

  lemma StartupIsReturned(log: Log, s: System)
    requires Faithful(log, s) && s.waiter.Resting? && s.fe.startupOutput.Some?
    ensures Faithful(Taking(log, s), AfterWait(s))
  {
    var s', output := AfterWait(s), s.fe.startupOutput.value;
    var f := Frame(STDOUT, 0, output);
    StartupTurn(s);
    SaidOne(Stdout(output));
    ChunkFlows(log, s, s', f, Stdout(output));
  }

  lemma PoppedIsFirst(s: System)
    requires s.waiter.Resting? && s.fe.startupOutput.None? && Popped(s).Some?
    ensures Held(s) == [Popped(s).value] + Held(AfterPop(s))
    ensures AfterPop(s).fe == s.fe.(stashed := None)
  {
  }

  /** The turn that pops a message which is not hidden. */
  lemma MessageFlows(log: Log, s: System)
    requires Faithful(log, s) && s.waiter.Resting? && s.fe.startupOutput.None?
    requires Popped(s).Some? && !Suppressed(s.fe, Popped(s).value)
    ensures Faithful(Taking(log, s), AfterWait(s))
  {
    var s', m := AfterWait(s), Popped(s).value;
    var o := Handle(AfterPop(s).fe, m);
    MessageTurn(s);
    PoppedIsFirst(s);
    PopTurn(s);
    HandleKeeps(AfterPop(s).fe, m);
    assert Held(s') == Held(AfterPop(s));
    assert s.returned + [] == s.returned;
    if o.next.Return? {
      ReturnedMore(s, s', o.next.chunk);
      SaidOne(o.next.chunk);
    }
    TakenFlows(log, s, s', m);
  }

  lemma HiddenTurn(log: Log, s: System)
    requires Faithful(log, s) && s.waiter.Resting? && s.fe.startupOutput.None?
    requires Popped(s).Some? && Suppressed(s.fe, Popped(s).value)
    ensures Faithful(Taking(log, s), AfterWait(s))
  {
    var s', m := AfterWait(s), Popped(s).value;
    MessageTurn(s);
    PoppedIsFirst(s);
    PopTurn(s);
    assert Held(s') == Held(AfterPop(s));
    assert s.returned + [] == s.returned;
    HiddenFlows(log, s, s', m);
  }

  lemma WaitFlows(log: Log, s: System)
    requires Faithful(log, s) && Calm(s)
    ensures Faithful(Taking(log, s), AfterWait(s))
  {
    if s.waiter.Draining? {
      if s.ring.frames != [] && IsOutput(s.ring.frames[0]) {
        MoreOutputFlows(log, s);
      } else {
        CollectedFlows(log, s);
      }
    } else if s.fe.startupOutput.Some? {
      StartupIsReturned(log, s);
    } else if Popped(s).Some? {
      if Suppressed(s.fe, Popped(s).value) {
        HiddenTurn(log, s);
      } else {
        MessageFlows(log, s);
      }
    }
  }

  lemma StepFlows(log: Log, s: System, a: Action)
    requires Faithful(log, s) && Inv(s) && Calm(s) && Enabled(s, a)
    ensures Faithful(Record(log, s, a), Step(s, a))
  {
    if a.InitReturns? {
      StartupFlows(log, s, a.output);
    } else if a.ResetsRing? {
      ResetFlows(log, s);
    } else if a.Waits? {
      WaitFlows(log, s);
    } else if PushedBy(a).Some? {
      PushStepFlows(log, s, a);
    } else {
      OthersFlow(log, s, a);
    }
  }

  /** A push may come with the worker going elsewhere. */
  lemma PushStepFlows(log: Log, s: System, a: Action)
    requires Faithful(log, s) && Inv(s) && Enabled(s, a) && PushedBy(a).Some?
    ensures Faithful(Record(log, s, a), Step(s, a))
  {
    var f := PushedBy(a).value;
    PushFlows(log, s, f);
    PushStep(s, a);
    NothingFlows(WithPushed(log, Stored(s.ring.capacity, f), Gone(s, f)), PushFrame(s, f), Step(s, a));
  }

  lemma PushStep(s: System, a: Action)
    requires HEADER_SIZE < s.ring.capacity && Enabled(s, a) && PushedBy(a).Some?
    ensures
      var s', s1 := Step(s, a), PushFrame(s, PushedBy(a).value);
      s'.fe == s1.fe && s'.ring == s1.ring && s'.returned == s1.returned && s'.waiter == s1.waiter
  {
  }

  predicate Moves(a: Action) {
    a.InitReturns? || a.ResetsRing? || a.Waits? || PushedBy(a).Some?
  }

  lemma OthersMoveNothing(s: System, a: Action)
    requires HEADER_SIZE < s.ring.capacity && Enabled(s, a) && !Moves(a)
    ensures
      var s' := Step(s, a);
      && s'.fe.startupOutput == s.fe.startupOutput && s'.fe.stashed == s.fe.stashed && s'.ring == s.ring
      && s'.returned == s.returned && s'.waiter == s.waiter
  {
    if a.UserSubmits? || a.BackgroundSubmits? {
      SubmitsMoveNothing(s, a);
    } else {
      StepsMoveNothing(s, a);
    }
  }

  lemma SubmitsMoveNothing(s: System, a: Action)
    requires HEADER_SIZE < s.ring.capacity && Enabled(s, a) && (a.UserSubmits? || a.BackgroundSubmits?)
    ensures
      var s' := Step(s, a);
      && s'.fe.startupOutput == s.fe.startupOutput && s'.fe.stashed == s.fe.stashed && s'.ring == s.ring
      && s'.returned == s.returned && s'.waiter == s.waiter
  {
  }

  lemma StepsMoveNothing(s: System, a: Action)
    requires HEADER_SIZE < s.ring.capacity && Enabled(s, a) && !Moves(a) && !a.UserSubmits? && !a.BackgroundSubmits?
    ensures
      var s' := Step(s, a);
      s'.fe == s.fe && s'.ring == s.ring && s'.returned == s.returned && s'.waiter == s.waiter
  {
  }

  lemma OthersFlow(log: Log, s: System, a: Action)
    requires Faithful(log, s) && HEADER_SIZE < s.ring.capacity && Enabled(s, a) && !Moves(a)
    ensures Faithful(log, Step(s, a))
  {
    OthersMoveNothing(s, a);
    NothingFlows(log, s, Step(s, a));
  }

  // ------------------------------------------------------------------------ every run

  lemma WaitingStaysCalm(s: System)
    requires Calm(s) && Inv(s)
    ensures Calm(AfterWait(s))
  {
    if s.waiter.Draining? {
      CollectingStaysCalm(s);
    } else if s.fe.startupOutput.None? && Popped(s).Some? {
      MessageStaysCalm(s);
    }
  }

  lemma CollectingStaysCalm(s: System)
    requires Calm(s) && s.waiter.Draining?
    ensures Calm(AfterWait(s))
  {
    CollectingTurn(s);
  }

  lemma MessageStaysCalm(s: System)
    requires Calm(s) && s.waiter.Resting? && s.fe.startupOutput.None? && Popped(s).Some?
    ensures Calm(AfterWait(s))
  {
    MessageTurn(s);
    PoppedIsFirst(s);
    HandleKeeps(AfterPop(s).fe, Popped(s).value);
    HandleStaysReady(AfterPop(s).fe, Popped(s).value);
  }

  lemma HandleStaysReady(fe: Frontend, m: Frame)
    ensures
      var o := Handle(fe, m);
      o.fe.ready == fe.ready && (o.next.Drain? ==> o.fe == fe && !fe.suppressing)
  {
  }

  lemma StepStaysCalm(s: System, a: Action)
    requires Calm(s) && Inv(s) && Enabled(s, a)
    ensures Calm(Step(s, a))
  {
    if a.Waits? {
      WaitingStaysCalm(s);
    } else if PushedBy(a).Some? {
      PushStep(s, a);
    } else {
      OthersStayCalm(s, a);
    }
  }

  lemma OthersStayCalm(s: System, a: Action)
    requires Calm(s) && HEADER_SIZE < s.ring.capacity && Enabled(s, a) && !a.Waits? && PushedBy(a).None?
    ensures Calm(Step(s, a))
  {
    if !Moves(a) {
      OthersMoveNothing(s, a);
    }
  }

  lemma {:induction false} RunFlows(log: Log, s: System, run: seq<Action>, t: System)
    requires Leads(s, run, t) && Inv(s) && Calm(s) && Faithful(log, s)
    ensures Faithful(LogOf(log, s, run, t), t) && Calm(t)
    decreases |run|
  {
    if run != [] {
      var a := run[0];
      StepFlows(log, s, a);
      StepStaysCalm(s, a);
      StepKeeps(s, a);
      RunFlows(Record(log, s, a), Step(s, a), run[1..], t);
    }
  }

  lemma InitialFlows(capacity: nat)
    requires HEADER_SIZE < capacity
    ensures Inv(Initial(capacity)) && Calm(Initial(capacity)) && Faithful(NOTHING, Initial(capacity))
  {
    InitialInv(capacity);
  }

  /** Over every run: what the frontend has been told, with the text it is adding up, is what it took, frame by frame;
      that and what is still held are parts of what was written, in the order of writing; and every frame written was
      taken, is held, was hidden or was lost. */
  lemma ShownInOrder(capacity: nat, run: seq<Action>, t: System)
    requires HEADER_SIZE < capacity && Leads(Initial(capacity), run, t)
    ensures
      var log := LogOf(NOTHING, Initial(capacity), run, t);
      && Said(t.returned) + Letters(Collected(t.waiter)) == SaidBy(log.taken)
      && PartOf(log.taken + Held(t), log.written)
      && |log.written| == |log.taken| + |Held(t)| + log.hidden + log.lost
  {
    InitialFlows(capacity);
    RunFlows(NOTHING, Initial(capacity), run, t);
  }

  lemma {:induction false} SaidByLast(frames: seq<Frame>, x: Frame, all: seq<Frame>)
    requires all == frames + [x]
    ensures SaidBy(all) == SaidBy(frames) + SaidByFrame(x)
  {
    assert all[..|frames|] == frames;
  }

  lemma Associates(a: seq<Word>, b: seq<Word>, c: seq<Word>)
    ensures a + b + c == a + (b + c)
  {
  }

  lemma {:induction false} SaidByOneMore(a: seq<Frame>, b: seq<Frame>, x: Frame, ab: seq<Frame>, bx: seq<Frame>, abx: seq<Frame>)
    requires bx == b + [x] && abx == ab + [x]
    requires SaidBy(ab) == SaidBy(a) + SaidBy(b)
    ensures SaidBy(abx) == SaidBy(a) + SaidBy(bx)
  {
    SaidByLast(ab, x, abx);
    SaidByLast(b, x, bx);
    Associates(SaidBy(a), SaidBy(b), SaidByFrame(x));
  }

  lemma {:induction false} SaidByConcat(a: seq<Frame>, b: seq<Frame>)
    ensures SaidBy(a + b) == SaidBy(a) + SaidBy(b)
    decreases |b|
  {
    if b == [] {
      assert a + b == a;
    } else {
      var n := |b| - 1;
      SaidByConcat(a, b[..n]);
      SaidByOneMore(a, b[..n], b[n], a + b[..n], b, a + b);
    }
  }

  /** As long as nothing was hidden or lost, what was told and what is still to be told are exactly what was written. */
  lemma NothingIsMissing(capacity: nat, run: seq<Action>, t: System)
    requires HEADER_SIZE < capacity && Leads(Initial(capacity), run, t)
    ensures
      var log := LogOf(NOTHING, Initial(capacity), run, t);
      log.hidden == 0 && log.lost == 0 ==>
        Said(t.returned) + Letters(Collected(t.waiter)) + SaidBy(Held(t)) == SaidBy(log.written)
  {
    var log := LogOf(NOTHING, Initial(capacity), run, t);
    ShownInOrder(capacity, run, t);
    if log.hidden == 0 && log.lost == 0 {
      PartIsShorter(log.taken + Held(t), log.written);
      SaidByConcat(log.taken, Held(t));
    }
  }

  lemma AlwaysCalm(s: System)
    requires Reachable(s)
    ensures Calm(s)
  {
    var capacity: nat, run :| HEADER_SIZE < capacity && Leads(Initial(capacity), run, s);
    InitialFlows(capacity);
    RunFlows(NOTHING, Initial(capacity), run, s);
  }

  /** Output of a background command behind which nothing is pending is hidden: it comes while nothing is being added up,
      and is passed over. */
  lemma BackgroundOutputIsHidden(s: System)
    requires Reachable(s) && Popped(s).Some? && IsOutput(Popped(s).value) && PoppedWriter(s).ByCommand?
    requires PoppedWriter(s).n < |s.submitted| && s.submitted[PoppedWriter(s).n].Background? && s.fe.pending == []
    requires s.waiter.Resting? ==> s.fe.startupOutput.None?
    ensures s.waiter.Resting? && AfterWait(s).waiter.Resting? && AfterWait(s).returned == s.returned
    ensures Held(s) == [Popped(s).value] + Held(AfterWait(s))
  {
    AlwaysInv(s);
    AlwaysCalm(s);
    BackgroundSuppresses(s);
    MessageTurn(s);
    PoppedIsFirst(s);
    assert s.returned + [] == s.returned;
  }

  lemma BackgroundSuppresses(s: System)
    requires Inv(s) && Calm(s) && Popped(s).Some? && PoppedWriter(s).ByCommand?
    requires PoppedWriter(s).n < |s.submitted| && s.submitted[PoppedWriter(s).n].Background? && s.fe.pending == []
    ensures s.fe.suppressing && s.waiter.Resting?
  {
  }
}
