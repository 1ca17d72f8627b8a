/**
  Runs of `Protocol` that come to an end: nothing gets stuck, and a run in which a `Done` goes missing.
*/
module Progress {
  import opened Wrappers
  import opened RingQueue
  import opened WorkerSlots
  import opened FfiBackend
  import opened Protocol
  import opened Delivery
  import opened Waiting

  lemma {:induction false} Extend(s: System, run: seq<Action>, t: System, a: Action)
    requires Leads(s, run, t) && HEADER_SIZE < t.ring.capacity && Enabled(t, a)
    ensures Leads(s, run + [a], Step(t, a))
    decreases |run|
  {
    if run == [] {
      assert (run + [a])[1..] == [];
    } else {
      assert (run + [a])[1..] == run[1..] + [a];
      Extend(Step(s, run[0]), run[1..], t, a);
    }
  }

  function Base(t: Task): nat {
    if t == Complete then 16 else 10
  }

  /** How far the worker is from handing over its current piece of work. */
  function Rank(s: System): nat {
    match s.worker
    case Starting => 20
    case WaitingRead(t) => Base(t) + (if s.readGate then 1 else if s.owesInput then 2 else 3)
    case WaitingPass(t) => Base(t) + (if s.passGate then 1 else if s.owesPassthrough then 2 else 3)
    case Running(t) => Base(t)
    case Fetched(_) => 14
    case Idle => if s.slots.cmd.Some? then 15 else 9
  }

  function Mailbox(s: System): nat {
    Unread(s) + Count(s.fe.startupOutput.Some?)
  }

  /** An action that brings the system closer to having nothing left to do, and submits nothing. */
  function Helpful(s: System): Action {
    if !s.fe.ready then
      if s.worker.Starting? then Starts else if s.waiter.Draining? then Waits else InitReturns([])
    else
      match s.worker
      case Running(Eval) => FinishesEval
      case Running(Complete) => FinishesCompletion([])
      case Fetched(_) => ResetsRing
      case WaitingRead(_) => if s.readGate then GetsInput else if s.owesInput then AnswersRead else Waits
      case WaitingPass(_) => if s.passGate then LeavesGate else if s.owesPassthrough then AnswersPassthrough else Waits
      case Idle => if s.slots.cmd.Some? then TakesWork else Waits
      case Starting => Waits
  }

  ghost predicate Closer(s: System, s': System) {
    && s'.submitted == s.submitted
    && (|| (!s.fe.ready && s'.fe.ready)
        || (s'.fe.ready == s.fe.ready && s'.handled > s.handled)
        || (s'.fe.ready == s.fe.ready && s'.handled == s.handled && Rank(s') < Rank(s))
        || (s'.fe.ready == s.fe.ready && s'.handled == s.handled && Rank(s') == Rank(s) && Mailbox(s') < Mailbox(s)))
  }

  lemma PopEmptiesMailbox(s: System)
    requires Popped(s).Some?
    ensures Mailbox(AfterPop(s)) + 2 == Mailbox(s)
  {
  }

  lemma ReadingHelps(s: System)
    requires Inv(s) && s.waiter.Resting? && s.fe.startupOutput.None?
    requires Popped(s).Some? && Popped(s).value.kind != DONE
    ensures Closer(s, AfterWait(s))
  {
    var s', o := AfterWait(s), Handle(AfterPop(s).fe, Popped(s).value);
    PopEmptiesMailbox(s);
    MessageOutcome(s);
    assert o.fe == AfterPop(s).fe && o.sent == None;
    assert Rank(s') <= Rank(s);
  }

  lemma CollectingHelps(s: System)
    requires Inv(s) && s.waiter.Draining?
    ensures Closer(s, AfterWait(s))
  {
    var s' := AfterWait(s);
    assert s.fe.stashed == None;
    if Popped(s).Some? {
      PopEmptiesMailbox(s);
    }
    assert s'.worker == s.worker && s'.slots == s.slots && s'.handled == s.handled;
  }

  lemma FinishingHelps(s: System)
    requires s.waiter.Resting? && s.fe.startupOutput.None?
    requires Popped(s).Some? && Popped(s).value.kind == DONE
    ensures Closer(s, AfterWait(s))
  {
    DoneOutcome(s);
  }

  lemma WaitingHelps(s: System)
    requires Inv(s) && (s.waiter.Draining? || Popped(s).Some?)
    ensures Closer(s, AfterWait(s))
  {
    if s.waiter.Draining? {
      CollectingHelps(s);
    } else if s.fe.startupOutput.None? {
      if Popped(s).value.kind == DONE {
        FinishingHelps(s);
      } else {
        ReadingHelps(s);
      }
    }
  }

  lemma HelpfulHelps(s: System)
    requires Inv(s) && !(s.fe.ready && !s.fe.busy)
    ensures Enabled(s, Helpful(s)) && Closer(s, Step(s, Helpful(s)))
  {
    if Helpful(s).Waits? {
      assert s.waiter.Draining? || Popped(s).Some?;
      WaitingHelps(s);
    } else {
      WorkingHelps(s);
    }
  }

  lemma WorkingHelps(s: System)
    requires Inv(s) && !(s.fe.ready && !s.fe.busy) && !Helpful(s).Waits?
    ensures Enabled(s, Helpful(s)) && Closer(s, Step(s, Helpful(s)))
  {
  }

  /** From every reachable state the system can come to rest without new input: whatever was submitted
      has been received in order and handled, and the frontend is ready for more.  No lost command, no
      lost signal and no unanswered question can prevent it. */
  lemma {:induction false} EverythingFinishes(s: System) returns (run: seq<Action>, t: System)
    requires Inv(s)
    ensures Leads(s, run, t)
    ensures t.fe.ready && !t.fe.busy && t.fe.pending == []
    ensures t.submitted == s.submitted && t.handled == |t.submitted| && t.received == Codes(t.submitted)
    decreases !s.fe.ready, |s.submitted| - s.handled, Rank(s), Mailbox(s)
  {
    if s.fe.ready && !s.fe.busy {
      run, t := [], s;
      OrderAdds(s);
      assert s.received + [] + [] == s.received;
    } else {
      HelpfulHelps(s);
      var s' := Step(s, Helpful(s));
      StepKeeps(s, Helpful(s));
      run, t := EverythingFinishes(s');
      run := [Helpful(s)] + run;
    }
  }

  /** A user's command whose end is never reported: a background command was queued behind it. */
  lemma DoneCanBeSwallowed(capacity: nat) returns (run: seq<Action>, t: System)
    requires 2 * HEADER_SIZE < capacity
    ensures Leads(Initial(capacity), run, t)
    ensures t.submitted == [User("x"), Background("y")] && t.handled == 2
    ensures !t.fe.busy && t.returned == []
  {
    var s0 := Initial(capacity);
    run, t := BothSubmitted(capacity);
    run, t := OneEval(s0, run, t);
    run, t := OneEval(s0, run, t);
  }

  lemma BothSubmitted(capacity: nat) returns (run: seq<Action>, t: System)
    requires HEADER_SIZE < capacity
    ensures Leads(Initial(capacity), run, t)
    ensures t == Initial(capacity).(worker := Idle, slots := PutCommand(EMPTY, "x"),
                                    fe := FfiBackend.INITIAL.(ready := true, busy := true, pending := [Background("y")]),
                                    submitted := [User("x"), Background("y")])
  {
    var s0 := Initial(capacity);
    var s1 := Step(s0, Starts);
    Extend(s0, [], s0, Starts);
    var s2 := Step(s1, InitReturns([]));
    Extend(s0, [Starts], s1, InitReturns([]));
    var s3 := Step(s2, UserSubmits("x"));
    Extend(s0, [Starts] + [InitReturns([])], s2, UserSubmits("x"));
    t := Step(s3, BackgroundSubmits("y"));
    Extend(s0, [Starts] + [InitReturns([])] + [UserSubmits("x")], s3, BackgroundSubmits("y"));
    run := [Starts] + [InitReturns([])] + [UserSubmits("x")] + [BackgroundSubmits("y")];
  }

  /** The worker takes a command and finishes it without a word. */
  lemma SilentStates(s: System) returns (s1: System, s2: System, t: System)
    requires s.worker.Idle? && s.slots.cmd.Some? && 2 * HEADER_SIZE < s.ring.capacity
    ensures Enabled(s, TakesWork) && s1 == Step(s, TakesWork)
    ensures HEADER_SIZE < s1.ring.capacity && Enabled(s1, ResetsRing) && s2 == Step(s1, ResetsRing)
    ensures HEADER_SIZE < s2.ring.capacity && Enabled(s2, FinishesEval) && t == Step(s2, FinishesEval)
    ensures t.worker.Idle? && t.slots == EMPTY && t.fe == s.fe && t.waiter == s.waiter
    ensures t.ring.frames == [Frame(DONE, 0, [])] && t.ring.capacity == s.ring.capacity
    ensures t.submitted == s.submitted && t.handled == s.handled && t.returned == s.returned
  {
    s1 := Step(s, TakesWork);
    s2 := Step(s1, ResetsRing);
    SizeOfOne(Frame(DONE, 0, []));
    assert Push(s2.ring, Frame(DONE, 0, [])).frames == [Frame(DONE, 0, [])];
    t := Step(s2, FinishesEval);
  }

  lemma SilentEval(s0: System, run: seq<Action>, s: System) returns (run': seq<Action>, t: System)
    requires Leads(s0, run, s)
    requires s.worker.Idle? && s.slots.cmd.Some? && 2 * HEADER_SIZE < s.ring.capacity
    ensures Leads(s0, run', t)
    ensures t.worker.Idle? && t.slots == EMPTY && t.fe == s.fe && t.waiter == s.waiter
    ensures t.ring.frames == [Frame(DONE, 0, [])] && t.ring.capacity == s.ring.capacity
    ensures t.submitted == s.submitted && t.handled == s.handled && t.returned == s.returned
  {
    var s1, s2;
    s1, s2, t := SilentStates(s);
    Extend(s0, run, s, TakesWork);
    Extend(s0, run + [TakesWork], s1, ResetsRing);
    Extend(s0, run + [TakesWork] + [ResetsRing], s2, FinishesEval);
    run' := run + [TakesWork] + [ResetsRing] + [FinishesEval];
  }

  /** ... and the frontend reads its DONE. */
  lemma OneEval(s0: System, run: seq<Action>, s: System) returns (run': seq<Action>, t: System)
    requires Leads(s0, run, s)
    requires s.worker.Idle? && s.slots.cmd.Some? && s.ring.frames == [] && 2 * HEADER_SIZE < s.ring.capacity
    requires s.waiter.Resting? && s.fe.startupOutput.None? && s.fe.stashed.None?
    ensures Leads(s0, run', t)
    ensures
      var done := HandleDone(s.fe);
      && t.fe == done.fe && t.slots == Send(EMPTY, done.sent)
      && t.worker.Idle? && t.ring.frames == [] && t.ring.capacity == s.ring.capacity && t.waiter.Resting?
      && t.submitted == s.submitted && t.handled == s.handled + 1
      && t.returned == s.returned + (if done.fe.busy || s.fe.suppressing then [] else [Done])
  {
    run', t := SilentEval(s0, run, s);
    Extend(s0, run', t, Waits);
    run', t := run' + [Waits], Step(t, Waits);
  }
}
