/**
  What every run of `Protocol` guarantees: no command is overwritten, no signal is lost, commands arrive in order,
  and what is hidden, discarded or reported is just what should be.
*/
module Delivery {
  import opened Wrappers
  import opened RingQueue
  import opened WorkerSlots
  import opened FfiBackend
  import opened Protocol

  /** How many frames of one kind are on their way to the frontend. */
  function CountKind(fs: seq<Frame>, kind: byte): nat {
    if fs == [] then 0 else Count(fs[0].kind == kind) + CountKind(fs[1..], kind)
  }

  lemma {:induction false} CountOnlyLast(fs: seq<Frame>, kind: byte)
    requires forall i :: 0 <= i < |fs| - 1 ==> fs[i].kind != kind
    ensures CountKind(fs, kind) == Count(fs != [] && fs[|fs| - 1].kind == kind)
  {
    if |fs| > 1 {
      CountOnlyLast(fs[1..], kind);
    }
  }

  /** A command is under way exactly when one token for it exists: in the slot, with the worker, as a
      DONE in the ring, or as a DONE put aside.  There are never two. */
  lemma BusyMeansExactlyOneToken(s: System)
    requires Reachable(s)
    ensures
      var tokens := Count(s.slots.cmd.Some?) + Count(OnEval(s.worker)) + CountKind(s.ring.frames, DONE) + Count(InStash(s, DONE));
      tokens == if s.fe.busy then 1 else 0
  {
    AlwaysInv(s);
    CountOnlyLast(s.ring.frames, DONE);
  }

  /** `rffi_submit` never finds a command in the slot that it would overwrite. */
  lemma CommandsAreNotOverwritten(s: System, a: Action)
    requires Reachable(s) && HEADER_SIZE < s.ring.capacity && Enabled(s, a)
    requires Step(s, a).slots.cmd.Some? && Step(s, a).slots.cmd != s.slots.cmd
    ensures s.slots.cmd == None && !OnEval(s.worker)
  {
    AlwaysInv(s);
    if s.slots.cmd.Some? {
      OnlyFreshTokens(s, a);
    }
    StepKeeps(s, a);
    FullSlotMeansNoEval(Step(s, a));
    FillingLeavesWorker(s, a);
  }

  lemma FullSlotMeansNoEval(s: System)
    requires Inv(s) && s.slots.cmd.Some?
    ensures !OnEval(s.worker)
  {
  }

  lemma FillingLeavesWorker(s: System, a: Action)
    requires HEADER_SIZE < s.ring.capacity && Enabled(s, a)
    requires s.slots.cmd == None && Step(s, a).slots.cmd.Some?
    ensures Step(s, a).worker == s.worker
  {
    if a.Waits? {
      WaitingLeavesWorker(s);
    } else if Pushes(a) {
      PushingStartsNothing(s, a);
    }
  }

  /** Whenever the frontend starts a command, even one that reads like the last, the slot is empty and no command is
      being evaluated; and it starts one at a time. */
  lemma StartsFindTheSlotEmpty(s: System, a: Action)
    requires Reachable(s) && HEADER_SIZE < s.ring.capacity && Enabled(s, a)
    requires StartedCount(Step(s, a)) > StartedCount(s)
    ensures s.slots.cmd == None && !OnEval(s.worker)
    ensures StartedCount(Step(s, a)) == StartedCount(s) + 1 && Step(s, a).slots.cmd.Some?
  {
    AlwaysInv(s);
    StepKeeps(s, a);
    OnlyTheFrontendStarts(s, a);
  }

  lemma OnlyTheFrontendStarts(s: System, a: Action)
    requires HEADER_SIZE < s.ring.capacity && Enabled(s, a)
    requires StartedCount(Step(s, a)) != StartedCount(s)
    ensures Step(s, a).received == s.received && Step(s, a).worker == s.worker
  {
    if a.Waits? {
      WaitingLeavesWorker(s);
    } else if !(a.InitReturns? || a.UserSubmits? || a.BackgroundSubmits?) {
      OthersStartNothing(s, a);
    }
  }

  lemma WaitingLeavesWorker(s: System)
    ensures AfterWait(s).received == s.received && AfterWait(s).worker == s.worker
  {
  }

  lemma OthersStartNothing(s: System, a: Action)
    requires HEADER_SIZE < s.ring.capacity && Enabled(s, a)
    requires !(a.Waits? || a.InitReturns? || a.UserSubmits? || a.BackgroundSubmits?)
    ensures StartedCount(Step(s, a)) == StartedCount(s)
  {
    if Pushes(a) {
      PushingStartsNothing(s, a);
    } else {
      AskingStartsNothing(s, a);
    }
  }

  predicate Pushes(a: Action) {
    a.Writes? || a.AsksInput? || a.EntersPassthrough? || a.FinishesEval? || a.FinishesCompletion?
  }

  lemma PushingStartsNothing(s: System, a: Action)
    requires HEADER_SIZE < s.ring.capacity && Enabled(s, a) && Pushes(a)
    ensures Step(s, a).submitted == s.submitted && Step(s, a).fe == s.fe && Step(s, a).returned == s.returned
    ensures Step(s, a).slots == s.slots
  {
    match a
    case Writes(f) => PushedFrame(s, f);
    case AsksInput(prompt) => PushedFrame(s, Frame(READLINE, 0, prompt));
    case EntersPassthrough => PushedFrame(s, Frame(PASSTHROUGH, 0, []));
    case FinishesEval => PushedFrame(s, Frame(DONE, 0, []));
    case FinishesCompletion(answer) => PushedFrame(s, Frame(COMPLETIONS, 0, answer));
  }

  lemma PushedFrame(s: System, f: Frame)
    requires HEADER_SIZE < s.ring.capacity
    ensures
      var s' := PushFrame(s, f);
      s'.submitted == s.submitted && s'.fe == s.fe && s'.returned == s.returned && s'.slots == s.slots
  {
  }

  lemma AskingStartsNothing(s: System, a: Action)
    requires HEADER_SIZE < s.ring.capacity && Enabled(s, a) && !Pushes(a)
    requires !(a.Waits? || a.InitReturns? || a.UserSubmits? || a.BackgroundSubmits?)
    ensures Step(s, a).submitted == s.submitted && Step(s, a).fe == s.fe
  {
  }

  /** Nothing but a start by the frontend fills the slot. */
  lemma OnlyFreshTokens(s: System, a: Action)
    requires Inv(s) && Enabled(s, a) && s.slots.cmd.Some?
    ensures Step(s, a).slots.cmd == s.slots.cmd || Step(s, a).slots.cmd == None
  {
    if a.Waits? {
      OnlyFreshTokensInWait(s);
    }
  }

  lemma OnlyFreshTokensInWait(s: System)
    requires Inv(s) && s.slots.cmd.Some?
    ensures AfterWait(s).slots.cmd == s.slots.cmd
  {
    if Popped(s).Some? && Popped(s).value.kind == DONE && s.waiter.Resting? {
      SignalFacts(s);
    }
  }

  /** The only ways in which a signal leaves the ring and the place for put-aside messages: the frontend
      takes it and marks the command as handled, or shows the question.  No push evicts it and no
      reset discards it. */
  lemma SignalsSurvive(s: System, a: Action, kind: byte)
    requires Reachable(s) && HEADER_SIZE < s.ring.capacity && Enabled(s, a)
    requires kind in SIGNALS && (InRing(s, kind) || InStash(s, kind))
    ensures
      var s' := Step(s, a);
      || InRing(s', kind) || InStash(s', kind)
      || (a.Waits? && kind == DONE && s'.handled == s.handled + 1)
      || (a.Waits? && kind == READLINE && s'.owesInput)
      || (a.Waits? && kind == PASSTHROUGH && s'.owesPassthrough)
  {
    AlwaysInv(s);
    if a.Waits? {
      WaitedSignals(s, kind);
    } else {
      OthersKeepSignals(s, a, kind);
    }
  }

  lemma OthersKeepSignals(s: System, a: Action, kind: byte)
    requires Inv(s) && Enabled(s, a) && !a.Waits?
    requires kind in SIGNALS && (InRing(s, kind) || InStash(s, kind))
    ensures InRing(Step(s, a), kind) || InStash(Step(s, a), kind)
  {
    if Pushes(a) {
      NoSignalWhileRunning(s, kind);
      PushingStartsNothing(s, a);
    } else if a.ResetsRing? {
      NoSignalWhileRunning(s, kind);
    }
  }

  lemma NoSignalWhileRunning(s: System, kind: byte)
    requires Inv(s) && kind in SIGNALS && (s.worker.Running? || s.worker.Fetched?)
    ensures !InRing(s, kind)
  {
  }

  lemma WaitedSignals(s: System, kind: byte)
    requires Inv(s) && kind in SIGNALS && (InRing(s, kind) || InStash(s, kind))
    ensures
      var s' := AfterWait(s);
      || InRing(s', kind) || InStash(s', kind)
      || (kind == DONE && s'.handled == s.handled + 1)
      || (kind == READLINE && s'.owesInput)
      || (kind == PASSTHROUGH && s'.owesPassthrough)
  {
    if s.waiter.Draining? {
      CollectedSignals(s, kind);
    } else if s.fe.startupOutput.None? && Popped(s).Some? && Popped(s).value.kind != DONE {
      MessageOutcome(s);
      PopMovesSignals(s);
    }
  }

  lemma CollectedSignals(s: System, kind: byte)
    requires Inv(s) && s.waiter.Draining? && kind in SIGNALS && InRing(s, kind)
    ensures InRing(AfterWait(s), kind) || InStash(AfterWait(s), kind)
  {
    PopMovesSignals(s);
  }

  /** A worker that waits for an answer is waited for: its question is still to be read, is shown, or is
      answered already - exactly one of these, so that it is neither stuck nor answered twice. */
  lemma BlockedWorkerWillBeAnswered(s: System)
    requires Reachable(s)
    ensures s.worker.WaitingRead? ==>
              CountKind(s.ring.frames, READLINE) + Count(InStash(s, READLINE)) + Count(s.owesInput) + Count(s.readGate) == 1
    ensures s.worker.WaitingPass? ==>
              CountKind(s.ring.frames, PASSTHROUGH) + Count(InStash(s, PASSTHROUGH)) + Count(s.owesPassthrough) + Count(s.passGate) == 1
    ensures !s.worker.WaitingRead? ==> !s.readGate && !s.owesInput
    ensures !s.worker.WaitingPass? ==> !s.passGate && !s.owesPassthrough
  {
    AlwaysInv(s);
    CountOnlyLast(s.ring.frames, READLINE);
    CountOnlyLast(s.ring.frames, PASSTHROUGH);
  }

  /** Commands reach the worker in the order of submission, user and background mixed: what the worker
      has received, what is in the slot and what is pending make up what was submitted. */
  lemma CommandsArriveInOrder(s: System)
    requires Reachable(s)
    ensures Codes(s.submitted) ==
            s.received + (if s.slots.cmd.Some? then [s.slots.cmd.value] else []) + Codes(s.fe.pending)
    ensures s.fe.ready && !s.fe.busy ==> s.fe.pending == [] && s.received == Codes(s.submitted) && s.handled == |s.submitted|
  {
    AlwaysInv(s);
    OrderAdds(s);
    if s.fe.ready && !s.fe.busy {
      assert s.received + [] + [] == s.received;
    }
  }

  lemma {:induction false} CodesConcat(a: seq<Command>, b: seq<Command>)
    ensures Codes(a + b) == Codes(a) + Codes(b)
  {
    var l, r := Codes(a + b), Codes(a) + Codes(b);
    assert forall i :: 0 <= i < |l| ==> l[i] == r[i];
  }

  lemma OrderAdds(s: System)
    requires InOrder(s)
    ensures Codes(s.submitted) ==
            s.received + (if s.slots.cmd.Some? then [s.slots.cmd.value] else []) + Codes(s.fe.pending)
  {
    var n, k := |s.received|, StartedCount(s);
    assert s.submitted == s.submitted[..k] + s.submitted[k..];
    CodesConcat(s.submitted[..k], s.submitted[k..]);
    if s.slots.cmd.Some? {
      CodesStep(s.submitted, n);
    }
  }

  /** Output that the frontend hides is never output of a user's command. */
  lemma UserOutputIsShown(s: System)
    requires Reachable(s) && s.waiter.Resting? && s.fe.startupOutput.None?
    requires Popped(s).Some? && Suppressed(AfterPop(s).fe, Popped(s).value)
    requires PoppedWriter(s).ByCommand?
    ensures PoppedWriter(s).n < |s.submitted| && s.submitted[PoppedWriter(s).n].Background?
  {
    AlwaysInv(s);
  }

  /** A reset of the ring, which is meant for stale answers to completion requests, discards no output of any command. */
  lemma ResetDiscardsNoOutput(s: System)
    requires Reachable(s) && Enabled(s, ResetsRing)
    ensures forall i :: 0 <= i < |s.writers| ==> s.writers[i].ByCompletion?
  {
    AlwaysInv(s);
  }

  /** The frontend reports `Done` at the end of a command exactly when it was the user's and nothing is
      pending behind it. */
  lemma DoneIsReportedIff(s: System)
    requires Reachable(s) && s.waiter.Resting? && s.fe.startupOutput.None?
    requires Popped(s).Some? && Popped(s).value.kind == DONE
    ensures 0 < StartedCount(s) <= |s.submitted|
    ensures AfterWait(s).returned == s.returned + [Done] <==> Current(s).User? && s.fe.pending == []
    ensures AfterWait(s).returned == s.returned || AfterWait(s).returned == s.returned + [Done]
  {
    AlwaysInv(s);
    SignalFacts(s);
    if AfterWait(s).returned == s.returned {
      assert s.returned != s.returned + [Done];
    }
  }

  /** `Done` is reported in no other situation. */
  lemma DoneOnlyAtDone(s: System, a: Action)
    requires HEADER_SIZE < s.ring.capacity && Enabled(s, a)
    requires Step(s, a).returned == s.returned + [Done]
    ensures a.Waits? && s.waiter.Resting? && s.fe.startupOutput.None? && Popped(s).Some? && Popped(s).value.kind == DONE
  {
    assert s.returned != s.returned + [Done];
    if !a.Waits? {
      OnlyWaitsReturns(s, a);
    } else {
      WaitedReturns(s);
    }
  }

  lemma OnlyWaitsReturns(s: System, a: Action)
    requires HEADER_SIZE < s.ring.capacity && Enabled(s, a) && !a.Waits?
    ensures Step(s, a).returned == s.returned
  {
    if Pushes(a) {
      PushingStartsNothing(s, a);
    }
  }

  lemma WaitedReturns(s: System)
    requires AfterWait(s).returned == s.returned + [Done]
    ensures s.waiter.Resting? && s.fe.startupOutput.None? && Popped(s).Some? && Popped(s).value.kind == DONE
  {
    assert AfterWait(s).returned[|s.returned|] == Done;
  }

  // -------------------------------------------------------------------- when output is hidden

  /** Hiding begins and ends so: a command that starts decides by its sort, a command of the user's that is submitted ends
      it, the end of the command under way ends it, and nothing else changes it. */
  ghost predicate HidingFollows(s: System, a: Action, s': System) {
    && (StartedCount(s') > StartedCount(s) ==>
          0 < StartedCount(s') <= |s'.submitted| && s'.fe.suppressing == Current(s').Background?)
    && (StartedCount(s') <= StartedCount(s) ==>
          s'.fe.suppressing == (s.fe.suppressing && !a.UserSubmits? && s'.handled == s.handled))
  }

  lemma HidingChanges(s: System, a: Action)
    requires Reachable(s) && HEADER_SIZE < s.ring.capacity && Enabled(s, a)
    ensures HidingFollows(s, a, Step(s, a))
  {
    AlwaysInv(s);
    if a.Waits? {
      HidingInWait(s);
    } else if a.InitReturns? || a.UserSubmits? || a.BackgroundSubmits? {
      HidingAtSubmission(s, a);
    } else if Pushes(a) {
      PushingStartsNothing(s, a);
    } else {
      AskingStartsNothing(s, a);
    }
  }

  lemma HidingAtSubmission(s: System, a: Action)
    requires Inv(s) && Enabled(s, a) && (a.InitReturns? || a.UserSubmits? || a.BackgroundSubmits?)
    ensures HidingFollows(s, a, Step(s, a))
  {
  }

  lemma HidingInWait(s: System)
    requires Inv(s)
    ensures HidingFollows(s, Waits, AfterWait(s))
  {
    if s.waiter.Resting? && s.fe.startupOutput.None? && Popped(s).Some? {
      if Popped(s).value.kind == DONE {
        HidingAtDone(s);
      } else {
        MessageOutcome(s);
      }
    }
  }

  lemma HidingAtDone(s: System)
    requires Inv(s) && s.waiter.Resting? && s.fe.startupOutput.None?
    requires Popped(s).Some? && Popped(s).value.kind == DONE
    ensures HidingFollows(s, Waits, AfterWait(s))
  {
    SignalFacts(s);
    DoneOutcome(s);
  }
}
