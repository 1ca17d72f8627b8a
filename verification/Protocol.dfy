/**
  The frontend and the R worker as one system (lib/ffi_backend.ml, c_ffi/load_r.c).  Each action is
  what one side does under a lock or between two looks at shared state; a run is any sequence of
  enabled actions.  The ring forgets its oldest frames and the command slot overwrites, and still no
  command and no signal (DONE, READLINE, PASSTHROUGH) is ever lost.

  The fields below the line in `System` are history: nothing that the two sides do depends on them.
*/
module Protocol {
  import opened Wrappers
  import opened RingQueue
  import opened WorkerSlots
  import opened FfiBackend

  datatype Task = Eval | Complete

  /** Where the worker thread is.  `Fetched` is between taking a command and resetting the ring. */
  datatype Worker =
    | Starting
    | Idle
    | Fetched(code: string)
    | Running(task: Task)
    | WaitingRead(task: Task)
    | WaitingPass(task: Task)

  /** Where the wait for a response is: about to pop, or adding up output. */
  datatype Waiter = Resting | Draining(text: seq<byte>)

  /** Who wrote a frame: the n-th command that was submitted, or a completion request. */
  datatype Writer = ByCommand(n: nat) | ByCompletion

  datatype System = System(
    fe: Frontend,
    waiter: Waiter,
    slots: Slots,
    worker: Worker,
    ring: Queue,
    readGate: bool,
    passGate: bool,
    owesInput: bool,       // the frontend has shown a READLINE and not answered it
    owesPassthrough: bool, // likewise for a PASSTHROUGH
    // ----
    submitted: seq<Command>,
    received: seq<string>,
    handled: nat,
    writers: seq<Writer>,
    stashWriter: Writer,
    returned: seq<Chunk>)

  datatype Action =
    // the frontend
    | InitReturns(output: seq<byte>)
    | UserSubmits(code: string)
    | BackgroundSubmits(code: string)
    | AsksCompletions(request: LineRequest)
    | AsksColumns(name: string)
    | Waits
    | AnswersRead
    | AnswersPassthrough
    // the worker
    | Starts
    | TakesWork
    | ResetsRing
    | Writes(frame: Frame)
    | AsksInput(prompt: seq<byte>)
    | GetsInput
    | EntersPassthrough
    | LeavesGate
    | FinishesEval
    | FinishesCompletion(answer: seq<byte>)

  const SIGNALS: set<byte> := {DONE, READLINE, PASSTHROUGH}

  // ------------------------------------------------------------------- actions

  function Initial(capacity: nat): System {
    System(FfiBackend.INITIAL, Resting, WorkerSlots.EMPTY, Starting, Queue(capacity, [], 0, 0),
           false, false, false, false, [], [], 0, [], ByCompletion, [])
  }

  /** The worker pushes a frame; the history drops the writers of the frames that are evicted. */
  function PushFrame(s: System, f: Frame): (s': System)
    requires HEADER_SIZE < s.ring.capacity
  {
    var ring' := Push(s.ring, f);
    var gone := |s.ring.frames| + 1 - |ring'.frames|;
    s.(ring := ring',
       writers := (if 0 <= gone <= |s.writers| then s.writers[gone..] else s.writers) + [CurrentWriter(s)])
  }

  /** The command that R works on is the last one the worker received. */
  function CurrentWriter(s: System): Writer {
    match s.worker
    case Running(Eval) => if |s.received| > 0 then ByCommand(|s.received| - 1) else ByCompletion
    case _ => ByCompletion
  }

  function Sent(s: System, started: Started): System {
    s.(fe := started.fe, slots := Send(s.slots, started.sent))
  }

  predicate Enabled(s: System, a: Action) {
    match a
    case InitReturns(_) => s.waiter.Resting? && !s.fe.ready && !s.worker.Starting?
    case UserSubmits(_) | BackgroundSubmits(_) => s.waiter.Resting?
    case AsksCompletions(_) | AsksColumns(_) => s.waiter.Resting?
    case Waits => true
    case AnswersRead => s.owesInput
    case AnswersPassthrough => s.owesPassthrough
    case Starts => s.worker.Starting?
    case TakesWork => s.worker.Idle? && NextWork(s.slots) != NoWork
    case ResetsRing => s.worker.Fetched?
    case Writes(f) => s.worker.Running? && |f.payload| < 0x1_0000_0000 && f.kind !in SIGNALS + {COMPLETIONS}
    case AsksInput(prompt) => s.worker.Running? && |prompt| < 0x1_0000_0000
    case GetsInput => s.worker.WaitingRead? && s.readGate
    case EntersPassthrough => s.worker.Running?
    case LeavesGate => s.worker.WaitingPass? && s.passGate
    case FinishesEval => s.worker == Running(Eval)
    case FinishesCompletion(answer) => s.worker == Running(Complete) && |answer| < 0x1_0000_0000
  }

  function Step(s: System, a: Action): System
    requires HEADER_SIZE < s.ring.capacity && Enabled(s, a)
  {
    match a
    case InitReturns(output) => Sent(s, InitDone(s.fe, output))
    case UserSubmits(code) => Sent(s, Submit(s.fe, code)).(submitted := s.submitted + [User(code)])
    case BackgroundSubmits(code) =>
      Sent(s, BackgroundSubmit(s.fe, code)).(submitted := s.submitted + [Background(code)])
    case AsksCompletions(r) => if s.fe.ready && !s.fe.busy then s.(slots := PutCompletion(s.slots, r)) else s
    case AsksColumns(n) => if s.fe.ready && !s.fe.busy then s.(slots := PutColumns(s.slots, n)) else s
    case Waits => AfterWait(s)
    case AnswersRead => s.(owesInput := false, readGate := true)
    case AnswersPassthrough => s.(owesPassthrough := false, passGate := true)
    case Starts => s.(worker := Idle)
    case TakesWork =>
      (match NextWork(s.slots)
       case EvalCode(code) => s.(worker := Fetched(code), slots := EMPTY, received := s.received + [code])
       case _ => s.(worker := Running(Complete), slots := EMPTY))
    case ResetsRing => s.(worker := Running(Eval), ring := Reset(s.ring), writers := [])
    case Writes(f) => PushFrame(s, f)
    case AsksInput(prompt) => PushFrame(s, Frame(READLINE, 0, prompt)).(worker := WaitingRead(s.worker.task))
    case GetsInput => s.(worker := Running(s.worker.task), readGate := false)
    case EntersPassthrough => PushFrame(s, Frame(PASSTHROUGH, 0, [])).(worker := WaitingPass(s.worker.task))
    case LeavesGate => s.(worker := Running(s.worker.task), passGate := false)
    case FinishesEval => PushFrame(s, Frame(DONE, 0, [])).(worker := Idle)
    case FinishesCompletion(answer) => PushFrame(s, Frame(COMPLETIONS, 0, answer)).(worker := Idle)
  }

  /** The message that the next pop yields: the one put aside, else the head of the ring. */
  function Popped(s: System): Option<Frame> {
    if s.waiter.Resting? && s.fe.stashed.Some? then s.fe.stashed else First(s.ring.frames)
  }

  function PoppedWriter(s: System): Writer {
    if s.waiter.Resting? && s.fe.stashed.Some? then s.stashWriter
    else if s.writers != [] then s.writers[0] else ByCompletion
  }

  /** The system after that message has left. */
  function AfterPop(s: System): System {
    var fromStash := s.waiter.Resting? && s.fe.stashed.Some?;
    s.(fe := if fromStash then s.fe.(stashed := None) else s.fe,
       ring := if fromStash || s.ring.frames == [] then s.ring else Pop(s.ring),
       writers := if fromStash || s.writers == [] then s.writers else s.writers[1..])
  }

  function Chunks(next: Next): seq<Chunk> {
    if next.Return? then [next.chunk] else []
  }

  predicate Shows(next: Next, kind: byte) {
    next.Return? && next.chunk.Message? && next.chunk.kind == kind
  }

  /** The next thing the wait does, and what it has shown. */
  function Follow(s: System, o: Outcome, w: Writer): System {
    s.(fe := o.fe,
       slots := Send(s.slots, o.sent),
       waiter := if o.next.Drain? then Draining(o.next.text) else Resting,
       owesInput := s.owesInput || Shows(o.next, READLINE),
       owesPassthrough := s.owesPassthrough || Shows(o.next, PASSTHROUGH),
       stashWriter := w,
       returned := s.returned + Chunks(o.next))
  }

  /** One turn of the wait for a response: one pop and what follows it. */
  function AfterWait(s: System): System {
    var m := Popped(s);
    if s.waiter.Draining? then
      Follow(AfterPop(s), HandleDraining(s.fe, s.waiter.text, m), PoppedWriter(s))
    else if s.fe.startupOutput.Some? then
      s.(fe := s.fe.(startupOutput := None), returned := s.returned + [Stdout(s.fe.startupOutput.value)])
    else if m.None? then s
    else if m.value.kind == DONE then
      Follow(AfterPop(s), Handle(AfterPop(s).fe, m.value), PoppedWriter(s)).(handled := s.handled + 1)
    else Follow(AfterPop(s), Handle(AfterPop(s).fe, m.value), PoppedWriter(s))
  }

  // ---------------------------------------------------------------- invariants

  /** A signal is the youngest frame of the ring, or has been put aside with nothing behind it. */
  predicate InRing(s: System, kind: byte) {
    s.ring.frames != [] && s.ring.frames[|s.ring.frames| - 1].kind == kind
  }

  predicate InStash(s: System, kind: byte) {
    s.fe.stashed.Some? && s.fe.stashed.value.kind == kind
  }

  function Count(b: bool): nat {
    if b then 1 else 0
  }

  predicate OnEval(w: Worker) {
    w.Fetched? || ((w.Running? || w.WaitingRead? || w.WaitingPass?) && w.task == Eval)
  }

  /** Only the youngest frame can be a signal, and only while the worker is where it would wait for
      that signal to be read. */
  ghost predicate RingShape(s: System) {
    && s.ring.Valid()
    && |s.writers| == |s.ring.frames|
    && (forall i :: 0 <= i < |s.ring.frames| - 1 ==> s.ring.frames[i].kind !in SIGNALS)
    && (InRing(s, DONE) || InStash(s, DONE) ==> s.worker.Idle?)
    && (InStash(s, DONE) || InStash(s, READLINE) || InStash(s, PASSTHROUGH) ==> s.ring.frames == [])
    && (s.waiter.Draining? ==> s.fe.stashed.None?)
  }

  /** One token for the command under way. */
  ghost predicate OneToken(s: System) {
    && Count(s.fe.busy) == Count(s.slots.cmd.Some?) + Count(OnEval(s.worker)) + Count(InRing(s, DONE)) + Count(InStash(s, DONE))
    && (OnEval(s.worker) || InRing(s, DONE) || InStash(s, DONE) ==> s.slots.completion.None? && s.slots.columns.None?)
  }

  /** A worker that waits for an answer has exactly one question on its way there and back. */
  ghost predicate OneQuestion(s: System) {
    && Count(s.worker.WaitingRead?) == Count(InRing(s, READLINE)) + Count(InStash(s, READLINE)) + Count(s.owesInput) + Count(s.readGate)
    && Count(s.worker.WaitingPass?) == Count(InRing(s, PASSTHROUGH)) + Count(InStash(s, PASSTHROUGH)) + Count(s.owesPassthrough) + Count(s.passGate)
  }

  ghost predicate Readiness(s: System) {
    && (s.fe.busy ==> s.fe.ready)
    && (s.fe.ready && !s.fe.busy ==> s.fe.pending == [])
    && (s.fe.ready ==> !s.worker.Starting?)
  }

  function Codes(cs: seq<Command>): (r: seq<string>)
    ensures |r| == |cs|
    ensures forall i :: 0 <= i < |cs| ==> r[i] == cs[i].code
  {
    if cs == [] then [] else [cs[0].code] + Codes(cs[1..])
  }

  /** How many commands have left the queue. */
  function StartedCount(s: System): int {
    |s.submitted| - |s.fe.pending|
  }

  /** Every submitted command is received, in the slot or pending, in the order of submission. */
  ghost predicate InOrder(s: System) {
    && 0 <= StartedCount(s)
    && s.fe.pending == s.submitted[StartedCount(s)..]
    && s.handled == StartedCount(s) - Count(s.fe.busy)
    && |s.received| == StartedCount(s) - Count(s.slots.cmd.Some?)
    && |s.received| >= 0
    && s.received == Codes(s.submitted[..|s.received|])
    && (s.slots.cmd.Some? ==> s.slots.cmd.value == s.submitted[StartedCount(s) - 1].code)
  }

  /** The command under way. */
  function Current(s: System): Command
    requires 0 < StartedCount(s) <= |s.submitted|
  {
    s.submitted[StartedCount(s) - 1]
  }

  ghost predicate SuppressesRightly(s: System) {
    && (s.fe.suppressing ==> s.fe.busy)
    && (s.fe.busy && 0 < StartedCount(s) <= |s.submitted| ==>
          && (s.fe.suppressing ==> Current(s).Background?)
          && (Current(s).Background? && !s.fe.suppressing ==> s.fe.pending != []))
  }

  /** Output of a command is read while that command is under way. */
  ghost predicate OutputIsCurrent(s: System) {
    && (forall i :: 0 <= i < |s.writers| && s.writers[i].ByCommand? ==>
          s.fe.busy && s.slots.cmd.None? && !s.worker.Fetched? && s.writers[i].n == StartedCount(s) - 1)
    && (s.fe.stashed.Some? && s.stashWriter.ByCommand? ==>
          s.fe.busy && s.slots.cmd.None? && !s.worker.Fetched? && s.stashWriter.n == StartedCount(s) - 1)
  }

  ghost predicate Inv(s: System) {
    RingShape(s) && OneToken(s) && OneQuestion(s) && Readiness(s) && InOrder(s) && SuppressesRightly(s) && OutputIsCurrent(s)
  }

  lemma InitialInv(capacity: nat)
    requires HEADER_SIZE < capacity
    ensures Inv(Initial(capacity))
  {
    var s := Initial(capacity);
    assert s.submitted[..0] == [];
    assert Codes([]) == [];
  }

  lemma CodesPrefix(cs: seq<Command>, c: Command, n: nat)
    requires n <= |cs|
    ensures (cs + [c])[..n] == cs[..n]
  {
  }

  lemma CodesStep(cs: seq<Command>, n: nat)
    requires n < |cs|
    ensures Codes(cs[..n + 1]) == Codes(cs[..n]) + [cs[n].code]
  {
    var l, r := Codes(cs[..n + 1]), Codes(cs[..n]) + [cs[n].code];
    assert forall i :: 0 <= i < |l| ==> l[i] == r[i];
  }

  // ------------------------------------------------- each action keeps the invariant

  lemma PushedFrames(q: Queue, f: Frame) returns (n: nat)
    requires q.Valid() && |f.payload| < 0x1_0000_0000
    ensures Push(q, f).Valid()
    ensures n <= |q.frames|
    ensures Push(q, f).frames == q.frames[n..] + [Stored(q.capacity, f)]
  {
    n := PushEffect(q, f);
    PushDropsKeepsValid(q, Stored(q.capacity, f), Push(q, f), n);
  }

  /** While the worker runs, the ring holds no signal, so a push makes the new frame the only one
      that can be a signal. */
  lemma PushFacts(s: System, f: Frame)
    requires Inv(s) && s.worker.Running? && |f.payload| < 0x1_0000_0000
    ensures
      var s' := PushFrame(s, f);
      && s'.ring.Valid()
      && |s'.writers| == |s'.ring.frames| > 0
      && s'.ring.frames[|s'.ring.frames| - 1].kind == f.kind
      && (forall i :: 0 <= i < |s'.ring.frames| - 1 ==> s'.ring.frames[i].kind !in SIGNALS)
  {
    NoSignalWhileRunning(s);
    var n := PushedFrames(s.ring, f);
  }

  lemma PushAddsWriter(s: System, f: Frame)
    requires Inv(s) && s.worker.Running? && |f.payload| < 0x1_0000_0000
    ensures
      var s' := PushFrame(s, f);
      forall i :: 0 <= i < |s'.writers| ==> s'.writers[i] in s.writers || s'.writers[i] == CurrentWriter(s)
  {
  }

  lemma NoSignalWhileRunning(s: System)
    requires Inv(s) && s.worker.Running?
    ensures forall i :: 0 <= i < |s.ring.frames| ==> s.ring.frames[i].kind !in SIGNALS
  {
  }

  lemma PushKeeps(s: System, f: Frame, worker': Worker)
    requires Inv(s) && s.worker.Running? && |f.payload| < 0x1_0000_0000
    requires worker' == match f.kind
                        case 11 => WaitingRead(s.worker.task)
                        case 8 => WaitingPass(s.worker.task)
                        case 5 => Idle
                        case 10 => Idle
                        case _ => s.worker
    requires f.kind == DONE ==> s.worker.task == Eval
    requires f.kind == COMPLETIONS ==> s.worker.task == Complete
    ensures Inv(PushFrame(s, f).(worker := worker'))
  {
    PushFacts(s, f);
    PushAddsWriter(s, f);
    var s' := PushFrame(s, f).(worker := worker');
    assert !InRing(s, DONE) && !InRing(s, READLINE) && !InRing(s, PASSTHROUGH);
    assert RingShape(s');
    assert OneToken(s');
    assert OneQuestion(s');
    assert OutputIsCurrent(s');
  }

  lemma SubmitKeepsOrder(s: System, c: Command, started: Started)
    requires InOrder(s)
    requires started == (match c case User(code) => Submit(s.fe, code) case Background(code) => BackgroundSubmit(s.fe, code))
    requires s.fe.ready && !s.fe.busy ==> s.fe.pending == [] && s.slots.cmd.None?
    ensures InOrder(Sent(s, started).(submitted := s.submitted + [c]))
  {
    var s' := Sent(s, started).(submitted := s.submitted + [c]);
    var n, k := |s.received|, StartedCount(s);
    CodesPrefix(s.submitted, c, n);
    if s.fe.ready && !s.fe.busy {
      assert s'.submitted[StartedCount(s')..] == [];
    } else {
      assert s'.submitted[k..] == s.submitted[k..] + [c];
    }
  }

  lemma SubmitKeepsTokens(s: System, c: Command, started: Started)
    requires RingShape(s) && OneToken(s) && OneQuestion(s) && Readiness(s)
    requires started == (match c case User(code) => Submit(s.fe, code) case Background(code) => BackgroundSubmit(s.fe, code))
    ensures
      var s' := Sent(s, started);
      RingShape(s') && OneToken(s') && OneQuestion(s') && Readiness(s')
  {
  }

  lemma SubmitKeepsCurrent(s: System, c: Command, started: Started)
    requires OneToken(s) && Readiness(s) && InOrder(s) && SuppressesRightly(s) && OutputIsCurrent(s)
    requires started == (match c case User(code) => Submit(s.fe, code) case Background(code) => BackgroundSubmit(s.fe, code))
    ensures
      var s' := Sent(s, started).(submitted := s.submitted + [c]);
      SuppressesRightly(s') && OutputIsCurrent(s')
  {
    var s' := Sent(s, started).(submitted := s.submitted + [c]);
    if s.fe.busy {
      assert Current(s') == Current(s);
    }
  }

  lemma SubmitKeeps(s: System, c: Command, started: Started)
    requires Inv(s)
    requires started == (match c case User(code) => Submit(s.fe, code) case Background(code) => BackgroundSubmit(s.fe, code))
    ensures Inv(Sent(s, started).(submitted := s.submitted + [c]))
  {
    SubmitKeepsTokens(s, c, started);
    SubmitKeepsOrder(s, c, started);
    SubmitKeepsCurrent(s, c, started);
    HistoryIsIdle(Sent(s, started), s.submitted + [c]);
  }

  lemma HistoryIsIdle(s: System, submitted: seq<Command>)
    requires RingShape(s) && OneToken(s) && OneQuestion(s) && Readiness(s)
    ensures
      var s' := s.(submitted := submitted);
      RingShape(s') && OneToken(s') && OneQuestion(s') && Readiness(s')
  {
  }

  /** Starting the next pending command from a state in which nothing is under way. */
  lemma FlushKeeps(s: System)
    requires RingShape(s) && OneQuestion(s) && InOrder(s) && OutputIsCurrent(s)
    requires OneToken(s) && !s.fe.busy && !s.fe.suppressing && s.fe.ready && !s.worker.Starting?
    ensures Inv(Sent(s, FlushPending(s.fe)))
  {
    var s' := Sent(s, FlushPending(s.fe));
    var k := StartedCount(s);
    if s.fe.pending != [] {
      assert s.submitted[k..][1..] == s.submitted[k + 1..];
      assert s.submitted[k] == s.fe.pending[0];
    }
    assert RingShape(s') && OneToken(s') && OneQuestion(s') && Readiness(s');
    assert InOrder(s');
    assert SuppressesRightly(s');
    assert OutputIsCurrent(s');
  }

  lemma InitReturnsKeeps(s: System, output: seq<byte>)
    requires Inv(s) && Enabled(s, InitReturns(output))
    ensures Inv(Step(s, InitReturns(output)))
  {
    var fe := s.fe.(ready := true, startupOutput := if output == [] then s.fe.startupOutput else Some(output));
    FlushKeeps(s.(fe := fe));
  }

  lemma WorkerKeeps(s: System, a: Action)
    requires Inv(s) && Enabled(s, a)
    requires a.Starts? || a.GetsInput? || a.LeavesGate? || a.ResetsRing?
    ensures Inv(Step(s, a))
  {
    if a.ResetsRing? {
      ResetKeeps(s);
    } else if a.GetsInput? || a.LeavesGate? {
      AnswerKeeps(s, a);
    }
  }

  lemma AnswerKeeps(s: System, a: Action)
    requires Inv(s) && Enabled(s, a) && (a.GetsInput? || a.LeavesGate?)
    ensures Inv(Step(s, a))
  {
  }

  lemma ResetKeeps(s: System)
    requires Inv(s) && Enabled(s, ResetsRing)
    ensures Inv(Step(s, ResetsRing))
  {
  }

  lemma AnswersKeep(s: System, a: Action)
    requires Inv(s) && Enabled(s, a)
    requires a.AnswersRead? || a.AnswersPassthrough? || a.AsksCompletions? || a.AsksColumns?
    ensures Inv(Step(s, a))
  {
    if a.AsksCompletions? || a.AsksColumns? {
      AskingKeeps(s, a);
    }
  }

  lemma AskingKeeps(s: System, a: Action)
    requires Inv(s) && Enabled(s, a) && (a.AsksCompletions? || a.AsksColumns?)
    ensures Inv(Step(s, a))
  {
  }

  lemma TakesWorkKeeps(s: System)
    requires Inv(s) && Enabled(s, TakesWork)
    ensures Inv(Step(s, TakesWork))
  {
    if s.slots.cmd.Some? {
      CodesStep(s.submitted, |s.received|);
    }
    var s' := Step(s, TakesWork);
    assert RingShape(s') && OneToken(s') && OneQuestion(s') && Readiness(s');
    assert InOrder(s');
  }

  /** What the next pop takes, when it takes something. */
  lemma PopFacts(s: System)
    requires Inv(s) && Popped(s).Some?
    ensures
      var s1 := AfterPop(s);
      && s1.fe == (if s.waiter.Resting? then s.fe.(stashed := None) else s.fe)
      && s1.ring.Valid() && |s1.writers| == |s1.ring.frames|
      && (forall i :: 0 <= i < |s1.ring.frames| - 1 ==> s1.ring.frames[i].kind !in SIGNALS)
      && (forall i :: 0 <= i < |s1.writers| ==> s1.writers[i] in s.writers)
      && (Popped(s).value.kind in SIGNALS ==> s1.ring.frames == [])
  {
    if !(s.waiter.Resting? && s.fe.stashed.Some?) {
      PopKeepsValid(s.ring);
    }
  }

  lemma PopKeepsValid(q: Queue)
    requires q.Valid() && q.frames != []
    ensures Pop(q).Valid()
  {
  }

  lemma PopMovesSignals(s: System)
    requires Inv(s) && Popped(s).Some?
    ensures
      var s1, m := AfterPop(s), Popped(s).value;
      && (forall k :: k in SIGNALS ==>
            Count(InRing(s, k)) + Count(InStash(s, k)) == Count(InRing(s1, k)) + Count(InStash(s1, k)) + Count(m.kind == k))
  {
    PopFacts(s);
  }

  /** `s'` differs from `s` at most in how far the wait has come. */
  ghost predicate SameButWaiter(s: System, s': System) {
    && s'.fe == s.fe && s'.slots == s.slots && s'.worker == s.worker && s'.ring == s.ring
    && s'.readGate == s.readGate && s'.passGate == s.passGate
    && s'.owesInput == s.owesInput && s'.owesPassthrough == s.owesPassthrough
    && s'.submitted == s.submitted && s'.received == s.received && s'.handled == s.handled
    && s'.writers == s.writers
  }

  /** The system right after a pop in which the message is no longer in the ring or put aside. */
  lemma PoppedKeeps(s: System)
    requires Inv(s) && Popped(s).Some? && Popped(s).value.kind !in SIGNALS
    ensures Inv(AfterPop(s)) && AfterPop(s).fe.stashed == None
  {
    PopFacts(s);
    PopMovesSignals(s);
    PoppedKeepsTokens(s);
    PoppedKeepsShape(s);
    PoppedKeepsHistory(s);
  }

  lemma PoppedKeepsShape(s: System)
    requires Inv(s) && Popped(s).Some? && Popped(s).value.kind !in SIGNALS
    ensures RingShape(AfterPop(s)) && AfterPop(s).fe.stashed == None
  {
    PopFacts(s);
  }

  lemma PoppedKeepsHistory(s: System)
    requires Readiness(s) && InOrder(s) && SuppressesRightly(s) && OutputIsCurrent(s)
    ensures
      var s1 := AfterPop(s);
      Readiness(s1) && InOrder(s1) && SuppressesRightly(s1) && OutputIsCurrent(s1)
  {
    var s1 := AfterPop(s);
    assert forall i :: 0 <= i < |s1.writers| ==> s1.writers[i] in s.writers;
  }

  lemma PoppedKeepsTokens(s: System)
    requires OneToken(s) && OneQuestion(s) && Popped(s).Some? && Popped(s).value.kind !in SIGNALS
    requires forall k :: k in SIGNALS ==>
            Count(InRing(s, k)) + Count(InStash(s, k)) == Count(InRing(AfterPop(s), k)) + Count(InStash(AfterPop(s), k))
    ensures OneToken(AfterPop(s)) && OneQuestion(AfterPop(s))
  {
  }

  lemma WaiterIsIdle(s: System, s': System)
    requires Inv(s) && SameButWaiter(s, s')
    requires s.fe.stashed == None
    ensures Inv(s')
  {
  }

  /** Taking a message that is no signal changes nothing but what the frontend has read. */
  lemma ReadKeeps(s: System, s': System)
    requires Inv(s) && Popped(s).Some? && Popped(s).value.kind !in SIGNALS
    requires SameButWaiter(AfterPop(s), s')
    ensures Inv(s')
  {
    PoppedKeeps(s);
    WaiterIsIdle(AfterPop(s), s');
  }

  /** Taking a signal leaves the ring empty and nothing put aside. */
  lemma SignalFacts(s: System)
    requires Inv(s) && s.waiter.Resting? && Popped(s).Some? && Popped(s).value.kind in SIGNALS
    ensures
      var s1, k := AfterPop(s), Popped(s).value.kind;
      && s1.ring.frames == [] && s1.writers == [] && s1.ring.Valid() && s1.fe == s.fe.(stashed := None)
      && (InRing(s, k) || InStash(s, k))
      && (forall k' :: k' in SIGNALS && k' != k ==> !InRing(s, k') && !InStash(s, k'))
      && Count(InRing(s, k)) + Count(InStash(s, k)) == 1
  {
    PopFacts(s);
    PopMovesSignals(s);
  }

  /** A question is shown: it is owed from now on. */
  lemma QuestionKeeps(s: System, s': System)
    requires Inv(s) && s.waiter.Resting? && Popped(s).Some? && Popped(s).value.kind in {READLINE, PASSTHROUGH}
    requires
      var s1, k := AfterPop(s), Popped(s).value.kind;
      SameButWaiter(s1.(owesInput := s1.owesInput || k == READLINE, owesPassthrough := s1.owesPassthrough || k == PASSTHROUGH), s')
    ensures Inv(s')
  {
    SignalFacts(s);
    assert RingShape(s');
    assert OneToken(s');
    assert OneQuestion(s');
  }

  /** The message that ends a stretch of output is put aside. */
  lemma PutAsideKeeps(s: System, s': System)
    requires Inv(s) && s.waiter.Draining? && Popped(s).Some?
    requires s'.waiter.Resting? && s'.stashWriter == PoppedWriter(s)
    requires SameButWaiter(AfterPop(s).(fe := s.fe.(stashed := Popped(s))), s')
    ensures Inv(s')
  {
    PopFacts(s);
    PutAsideKeepsTokens(s, s');
    assert PoppedWriter(s) in s.writers;
    assert RingShape(s');
    assert OutputIsCurrent(s');
  }

  lemma PutAsideKeepsTokens(s: System, s': System)
    requires RingShape(s) && OneToken(s) && OneQuestion(s) && s.waiter.Draining? && Popped(s).Some?
    requires SameButWaiter(AfterPop(s).(fe := s.fe.(stashed := Popped(s))), s')
    ensures OneToken(s') && OneQuestion(s')
  {
    assert forall k :: k in SIGNALS ==> Count(InRing(s, k)) == Count(InRing(s', k)) + Count(InStash(s', k));
  }

  lemma WaitsForOutputKeeps(s: System)
    requires Inv(s) && s.waiter.Draining?
    ensures Inv(AfterWait(s))
  {
    var m := Popped(s);
    if m.Some? && m.value.kind in {STDOUT, STDERR} {
      ReadKeeps(s, AfterWait(s));
    } else if m.Some? {
      PutAsideKeeps(s, AfterWait(s));
    } else {
      WaiterIsIdle(s, AfterWait(s));
    }
  }

  lemma MessageOutcome(s: System)
    requires s.waiter.Resting? && s.fe.startupOutput.None?
    requires Popped(s).Some? && Popped(s).value.kind != DONE
    ensures
      var s1, k := AfterPop(s), Popped(s).value.kind;
      SameButWaiter(s1.(owesInput := s1.owesInput || k == READLINE, owesPassthrough := s1.owesPassthrough || k == PASSTHROUGH), AfterWait(s))
  {
  }

  lemma WaitsForMessageKeeps(s: System)
    requires Inv(s) && s.waiter.Resting? && s.fe.startupOutput.None?
    requires Popped(s).Some? && Popped(s).value.kind != DONE
    ensures Inv(AfterWait(s))
  {
    MessageOutcome(s);
    if Popped(s).value.kind in SIGNALS {
      QuestionKeeps(s, AfterWait(s));
    } else {
      ReadKeeps(s, AfterWait(s));
    }
  }

  /** The frontend right after it has taken a DONE, before it starts the next command. */
  function DoneTaken(s: System): System {
    var s1 := AfterPop(s);
    s1.(fe := s1.fe.(busy := false, suppressing := false), handled := s.handled + 1)
  }

  lemma DoneLeavesNothing(s: System)
    requires Inv(s) && s.waiter.Resting? && Popped(s).Some? && Popped(s).value.kind == DONE
    ensures
      var s2 := DoneTaken(s);
      && RingShape(s2) && OneToken(s2) && OneQuestion(s2) && InOrder(s2) && OutputIsCurrent(s2)
      && s2.fe.ready && !s2.worker.Starting? && s2.fe.stashed == None
  {
    SignalFacts(s);
  }

  lemma DoneOutcome(s: System)
    requires s.waiter.Resting? && s.fe.startupOutput.None?
    requires Popped(s).Some? && Popped(s).value.kind == DONE
    ensures SameButWaiter(Sent(DoneTaken(s), FlushPending(DoneTaken(s).fe)), AfterWait(s))
  {
  }

  lemma WaitsForDoneKeeps(s: System)
    requires Inv(s) && s.waiter.Resting? && s.fe.startupOutput.None?
    requires Popped(s).Some? && Popped(s).value.kind == DONE
    ensures Inv(AfterWait(s))
  {
    DoneLeavesNothing(s);
    FlushKeeps(DoneTaken(s));
    DoneOutcome(s);
    WaiterIsIdle(Sent(DoneTaken(s), FlushPending(DoneTaken(s).fe)), AfterWait(s));
  }

  lemma WaitsForStartupKeeps(s: System)
    requires Inv(s) && s.waiter.Resting? && s.fe.startupOutput.Some?
    ensures Inv(AfterWait(s))
  {
  }

  lemma WaitsKeeps(s: System)
    requires Inv(s)
    ensures Inv(AfterWait(s))
  {
    if s.waiter.Draining? {
      WaitsForOutputKeeps(s);
    } else if s.fe.startupOutput.Some? {
      WaitsForStartupKeeps(s);
    } else if Popped(s).Some? {
      if Popped(s).value.kind == DONE {
        WaitsForDoneKeeps(s);
      } else {
        WaitsForMessageKeeps(s);
      }
    }
  }

  lemma {:induction false} StepKeeps(s: System, a: Action)
    requires Inv(s) && Enabled(s, a)
    ensures Inv(Step(s, a))
  {
    match a
    case InitReturns(output) => InitReturnsKeeps(s, output);
    case UserSubmits(code) => SubmitKeeps(s, User(code), Submit(s.fe, code));
    case BackgroundSubmits(code) => SubmitKeeps(s, Background(code), BackgroundSubmit(s.fe, code));
    case AsksCompletions(_) | AsksColumns(_) | AnswersRead | AnswersPassthrough => AnswersKeep(s, a);
    case Waits => WaitsKeeps(s);
    case Starts | ResetsRing | GetsInput | LeavesGate => WorkerKeeps(s, a);
    case TakesWork => TakesWorkKeeps(s);
    case Writes(f) => PushKeeps(s, f, s.worker);
    case AsksInput(prompt) => PushKeeps(s, Frame(READLINE, 0, prompt), WaitingRead(s.worker.task));
    case EntersPassthrough => PushKeeps(s, Frame(PASSTHROUGH, 0, []), WaitingPass(s.worker.task));
    case FinishesEval => PushKeeps(s, Frame(DONE, 0, []), Idle);
    case FinishesCompletion(answer) => PushKeeps(s, Frame(COMPLETIONS, 0, answer), Idle);
  }

  // ------------------------------------------------------------------- every run

  /** `run` is a run from `s` to `t`. */
  ghost predicate Leads(s: System, run: seq<Action>, t: System)
    decreases |run|
  {
    if run == [] then s == t
    else HEADER_SIZE < s.ring.capacity && Enabled(s, run[0]) && Leads(Step(s, run[0]), run[1..], t)
  }

  ghost predicate Reachable(s: System) {
    exists capacity: nat, run ::
      HEADER_SIZE < capacity && Leads(Initial(capacity), run, s)
  }

  lemma {:induction false} LeadsKeeps(s: System, run: seq<Action>, t: System)
    requires Inv(s) && Leads(s, run, t)
    ensures Inv(t)
    decreases |run|
  {
    if run != [] {
      StepKeeps(s, run[0]);
      LeadsKeeps(Step(s, run[0]), run[1..], t);
    }
  }

  /** Every reachable state satisfies the invariant. */
  lemma AlwaysInv(s: System)
    requires Reachable(s)
    ensures Inv(s)
  {
    var capacity: nat, run :| HEADER_SIZE < capacity && Leads(Initial(capacity), run, s);
    InitialInv(capacity);
    LeadsKeeps(Initial(capacity), run, s);
  }
}
