/**
  The wait for a response when nobody else is at work: its turns in `Protocol`, one after the other, are the whole
  wait that `FfiBackend` specifies.
*/
module Waiting {
  import opened Numbers
  import opened Wrappers
  import opened RingQueue
  import opened WorkerSlots
  import opened FfiBackend
  import opened Protocol

  /** Nothing to return and nothing to read. */
  predicate Quiet(s: System) {
    s.waiter.Resting? && s.fe.startupOutput.None? && Popped(s).None?
  }

  function Unread(s: System): nat {
    2 * (|s.ring.frames| + Count(s.fe.stashed.Some?)) + Count(s.waiter.Draining?)
  }

  /** One turn after the other, until one returns a chunk or the ring is empty. */
  function WaitAlone(s: System): System
    requires s.waiter.Draining? ==> s.fe.stashed.None?
    decreases Unread(s)
  {
    if Quiet(s) then s
    else
      var s' := AfterWait(s);
      if |s'.returned| > |s.returned| then s'
      else
        TurnReads(s);
        WaitAlone(s')
  }

  lemma TurnReads(s: System)
    requires !Quiet(s) && (s.waiter.Draining? ==> s.fe.stashed.None?)
    requires |AfterWait(s).returned| <= |s.returned|
    ensures Unread(AfterWait(s)) < Unread(s)
    ensures AfterWait(s).fe.stashed.None?
  {
    if s.waiter.Draining? {
      CollectingTurn(s);
    } else if s.fe.startupOutput.None? {
      MessageTurn(s);
      PopTurn(s);
      HandleKeeps(AfterPop(s).fe, Popped(s).value);
    }
  }

  /** A turn while output is being added up. */
  lemma CollectingTurn(s: System)
    requires s.waiter.Draining? && s.fe.stashed.None?
    ensures
      var o, s' := HandleDraining(s.fe, s.waiter.text, First(s.ring.frames)), AfterWait(s);
      && !o.next.Continue?
      && s'.fe == o.fe && s'.slots == s.slots && s'.ring.frames == Rest(s.ring.frames)
      && s'.returned == s.returned + Chunks(o.next)
      && s'.waiter == (if o.next.Drain? then Draining(o.next.text) else Resting)
      && (o.next.Drain? ==> o.fe == s.fe && s.ring.frames != [])
  {
  }

  lemma HandleKeeps(fe: Frontend, m: Frame)
    ensures
      var o := Handle(fe, m);
      && o.fe.stashed == fe.stashed && o.fe.startupOutput == fe.startupOutput
      && (o.next.Drain? ==> o.sent.None?)
  {
  }

  /** A turn that reads a message. */
  lemma MessageTurn(s: System)
    requires s.waiter.Resting? && s.fe.startupOutput.None? && Popped(s).Some?
    ensures
      var o, s' := Handle(AfterPop(s).fe, Popped(s).value), AfterWait(s);
      && s'.fe == o.fe && s'.slots == Send(s.slots, o.sent) && s'.ring.frames == AfterPop(s).ring.frames
      && s'.returned == s.returned + Chunks(o.next)
      && s'.waiter == (if o.next.Drain? then Draining(o.next.text) else Resting)
  {
  }

  lemma PopTurn(s: System)
    requires s.waiter.Resting? && s.fe.startupOutput.None? && Popped(s).Some?
    ensures Unread(AfterPop(s)) == Unread(s) - 2
    ensures AfterPop(s).fe == s.fe.(stashed := None)
    ensures AfterPop(s).ring.frames == if s.fe.stashed.Some? then s.ring.frames else Rest(s.ring.frames)
  {
  }

  // --------------------------------------------------------------- the turns are the wait

  /** `t` is what the wait makes of `s`. */
  ghost predicate Agrees(s: System, t: System, w: Waited) {
    && t.fe == w.fe && t.slots == w.slots && t.ring.frames == w.frames
    && t.returned == s.returned + (if w.result.Some? then [w.result.value] else [])
  }

  lemma {:induction false} CollectingAgrees(s: System)
    requires s.waiter.Draining? && s.fe.stashed.None?
    ensures Agrees(s, WaitAlone(s), AwaitDrain(s.fe, s.slots, Rest(s.ring.frames), s.waiter.text, First(s.ring.frames)))
    decreases Unread(s)
  {
    CollectingTurn(s);
    var o, s' := HandleDraining(s.fe, s.waiter.text, First(s.ring.frames)), AfterWait(s);
    if o.next.Drain? {
      assert s.returned + [] == s.returned;
      CollectingAgrees(s');
    }
  }

  lemma {:induction false} MessageAgrees(s: System)
    requires s.waiter.Resting? && s.fe.startupOutput.None?
    ensures Agrees(s, WaitAlone(s), AwaitMessage(AfterPop(s).fe, s.slots, AfterPop(s).ring.frames, Popped(s)))
    decreases Unread(s)
  {
    if Popped(s).None? {
      assert s.returned + [] == s.returned;
    } else {
      MessageTurn(s);
      PopTurn(s);
      HandleKeeps(AfterPop(s).fe, Popped(s).value);
      var o, s' := Handle(AfterPop(s).fe, Popped(s).value), AfterWait(s);
      assert s.returned + [] == s.returned;
      if o.next.Drain? {
        CollectingAgrees(s');
      } else if o.next.Continue? {
        MessageAgrees(s');
        NothingStashed(s');
      }
    }
  }

  lemma NothingStashed(s: System)
    requires s.waiter.Resting? && s.fe.stashed.None?
    ensures Popped(s) == First(s.ring.frames)
    ensures AfterPop(s).fe == s.fe && AfterPop(s).ring.frames == Rest(s.ring.frames)
  {
  }

  /** Alone, turn after turn, the system waits as `Await` says: same frontend, same slots, same ring, and the same
      chunk returned, if any. */
  lemma WaitAloneIsAwait(s: System)
    requires s.waiter.Resting?
    ensures Agrees(s, WaitAlone(s), Await(s.fe, s.slots, s.ring.frames))
  {
    if s.fe.startupOutput.None? {
      MessageAgrees(s);
      if s.fe.stashed.None? {
        NothingStashed(s);
      } else {
        PopTurn(s);
      }
    }
  }

  // ------------------------------------------------------------------- what a wait returns

  /** Standard output or standard error. */
  predicate IsOutput(f: Frame) {
    f.kind == 0 || f.kind == 1
  }

  function Joined(frames: seq<Frame>): seq<byte> {
    if frames == [] then [] else frames[0].payload + Joined(frames[1..])
  }

  /** How many frames at the front are output. */
  ghost predicate OutputUpTo(frames: seq<Frame>, k: nat) {
    && k <= |frames|
    && (forall i :: 0 <= i < k ==> IsOutput(frames[i]))
    && (k < |frames| ==> !IsOutput(frames[k]))
  }

  lemma BehindFirst(frames: seq<Frame>, k: nat)
    requires OutputUpTo(frames, k) && k > 0
    ensures OutputUpTo(frames[1..], k - 1) && frames[1..][k - 1..] == frames[k..]
    ensures Joined(frames[..k]) == frames[0].payload + Joined(frames[1..][..k - 1])
  {
    assert forall i :: 0 <= i < k - 1 ==> frames[1..][i] == frames[i + 1];
    assert frames[..k][1..] == frames[1..][..k - 1];
  }

  lemma {:induction false} DrainJoins(fe: Frontend, slots: Slots, frames: seq<Frame>, text: seq<byte>, k: nat)
    requires OutputUpTo(frames, k)
    ensures
      AwaitDrain(fe, slots, Rest(frames), text, First(frames)) ==
        Waited(fe.(stashed := First(frames[k..])), slots, Rest(frames[k..]), Some(Stdout(text + Joined(frames[..k]))))
    decreases k
  {
    if k > 0 {
      BehindFirst(frames, k);
      DrainJoins(fe, slots, frames[1..], text + frames[0].payload, k - 1);
      assert text + Joined(frames[..k]) == text + frames[0].payload + Joined(frames[1..][..k - 1]);
    } else {
      assert text + [] == text && frames[0..] == frames;
    }
  }

  /** What is still to be read: the message put aside and what is in the ring. */
  function Messages(fe: Frontend, frames: seq<Frame>): seq<Frame> {
    (if fe.stashed.Some? then [fe.stashed.value] else []) + frames
  }

  lemma FirstMessage(fe: Frontend, slots: Slots, frames: seq<Frame>)
    requires fe.startupOutput.None? && Messages(fe, frames) != []
    ensures
      var all := Messages(fe, frames);
      Await(fe, slots, frames) == AwaitMessage(fe.(stashed := None), slots, all[1..], Some(all[0]))
  {
    if fe.stashed.Some? {
      assert ([fe.stashed.value] + frames)[1..] == frames;
    } else {
      assert [] + frames == frames;
    }
  }

  lemma OutputIsDrained(fe: Frontend, slots: Slots, frames: seq<Frame>, m: Frame)
    requires !fe.suppressing && IsOutput(m)
    ensures AwaitMessage(fe, slots, frames, Some(m)) == AwaitDrain(fe, slots, Rest(frames), m.payload, First(frames))
  {
  }

  /** A wait that finds output, and does not hide it, returns all of it up to the next other message, joined in the
      order of the ring, and puts just that message aside. */
  lemma OutputIsJoined(fe: Frontend, slots: Slots, frames: seq<Frame>, k: nat)
    requires fe.startupOutput.None? && !fe.suppressing
    requires OutputUpTo(Messages(fe, frames), k) && k > 0
    ensures
      var all := Messages(fe, frames);
      Await(fe, slots, frames) ==
        Waited(fe.(stashed := if k < |all| then Some(all[k]) else None), slots, all[Min(k + 1, |all|)..], Some(Stdout(Joined(all[..k]))))
  {
    var all, fe' := Messages(fe, frames), fe.(stashed := None);
    FirstMessage(fe, slots, frames);
    BehindFirst(all, k);
    OutputIsDrained(fe', slots, all[1..], all[0]);
    DrainJoins(fe', slots, all[1..], all[0].payload, k - 1);
  }

  /** What a background command sends is passed over, except for the messages that steer the two sides. */
  predicate IsHiddenKind(f: Frame) {
    IsOutput(f) || 2 <= f.kind <= 4 || 6 <= f.kind <= 7 || f.kind > 12
  }

  lemma FirstIsSkipped(fe: Frontend, slots: Slots, frames: seq<Frame>)
    requires fe.startupOutput.None? && fe.stashed.None? && fe.suppressing && frames != [] && IsHiddenKind(frames[0])
    ensures Await(fe, slots, frames) == Await(fe, slots, frames[1..])
  {
  }

  lemma {:induction false} HiddenIsSkipped(fe: Frontend, slots: Slots, frames: seq<Frame>, k: nat)
    requires fe.startupOutput.None? && fe.stashed.None? && fe.suppressing
    requires k <= |frames| && forall i :: 0 <= i < k ==> IsHiddenKind(frames[i])
    ensures Await(fe, slots, frames) == Await(fe, slots, frames[k..])
    decreases k
  {
    if k > 0 {
      FirstIsSkipped(fe, slots, frames);
      HiddenIsSkipped(fe, slots, frames[1..], k - 1);
      assert frames[1..][k - 1..] == frames[k..];
    }
  }

  /** Any other message that is not passed over is returned as it is, also while a background command runs. */
  lemma MessageIsReturned(fe: Frontend, slots: Slots, frames: seq<Frame>)
    requires fe.startupOutput.None? && Messages(fe, frames) != []
    requires
      var m := Messages(fe, frames)[0];
      !IsOutput(m) && m.kind != 5 && (fe.suppressing ==> !IsHiddenKind(m))
    ensures
      var all := Messages(fe, frames);
      Await(fe, slots, frames) == Waited(fe.(stashed := None), slots, all[1..], Some(Message(all[0].kind, all[0].payload)))
  {
    FirstMessage(fe, slots, frames);
  }
}
