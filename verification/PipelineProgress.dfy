/**
 pipeline/pipeline.go: when a send is refused, that one batch of the worker is out at a time and is
 settled before its lock is let go, and that no schedule gets stuck with an event that is due.
 */
module PipelineProgress {
  import Retry
  import opened PipelineRuns

  // ---------------------------------------------------------------------------------------
  // What the counters and the phase stand for
  // ---------------------------------------------------------------------------------------

  function Waited(steps: seq<Step>): nat {
    if steps == [] then 0
    else Waited(steps[..|steps| - 1]) + if steps[|steps| - 1].Wait? then steps[|steps| - 1].dt else 0
  }

  function Often(steps: seq<Step>, step: Step): nat {
    multiset(steps)[step]
  }

  lemma OftenSnoc(steps: seq<Step>, step: Step, x: Step)
    ensures Often(steps + [step], x) == Often(steps, x) + if step == x then 1 else 0
    ensures Waited(steps + [step]) == Waited(steps) + if step.Wait? then step.dt else 0
  {
    assert (steps + [step])[..|steps|] == steps;
  }

  lemma StepTallies(c: Config, s: State, step: Step)
    requires Enabled(c, s, step)
    ensures var t := Take(c, s, step);
      && t.now == s.now + (if step.Wait? then step.dt else 0)
      && t.passed + |t.arrivals| == s.passed + |s.arrivals| + (if step == PassCheck then 1 else 0)
      && t.rejected == s.rejected + (if step == Reject then 1 else 0)
      && t.flushes + (if step == FlushTake then 1 else 0) == s.flushes + if step == FlushCheck then 1 else 0
  {
    hide WorkerIdle, Ready, Retry.CallOf, Retry.LeftOf;
  }

  /** Over every run: every send that passed the closed check has entered the buffer or is about
      to, every other one was counted as rejected, and so for the Flush calls. */
  lemma {:induction false} EverySendCounts(c: Config, states: seq<State>, steps: seq<Step>, k: nat)
    requires IsRun(c, states, steps) && k <= |steps|
    ensures states[k].now == Waited(steps[..k])
    ensures states[k].passed + |states[k].arrivals| == Often(steps[..k], PassCheck)
    ensures states[k].rejected == Often(steps[..k], Reject)
    ensures states[k].flushes + Often(steps[..k], FlushTake) == Often(steps[..k], FlushCheck)
  {
    hide Take, Enabled, Waited, Often;
    if k == 0 {
      NoSteps();
    } else {
      EverySendCounts(c, states, steps, k - 1);
      var step := steps[k - 1];
      StepTallies(c, states[k - 1], step);
      assert steps[..k] == steps[..k - 1] + [step];
      OftenSnoc(steps[..k - 1], step, PassCheck);
      OftenSnoc(steps[..k - 1], step, Reject);
      OftenSnoc(steps[..k - 1], step, FlushTake);
      OftenSnoc(steps[..k - 1], step, FlushCheck);
    }
  }

  lemma NoSteps()
    ensures Waited([]) == 0 && forall step :: Often([], step) == 0
  {
  }

  lemma StepPhase(c: Config, s: State, step: Step)
    requires Enabled(c, s, step)
    ensures Take(c, s, step).phase ==
      if step == CloseStart then Closing else if step == Drain then Drained else s.phase
    ensures step == CloseStart || step == PassCheck || step == FlushCheck ==> s.phase == Running
    ensures step == Reject || step == FlushReturn ==> s.phase != Running
    ensures step == Drain ==> s.phase == Closing
    ensures step == WorkerTake ==> s.phase != Drained
  {
    hide WorkerIdle, Ready, Retry.CallOf, Retry.LeftOf;
  }

  lemma PhaseEnables(c: Config, s: State)
    ensures Enabled(c, s, PassCheck) == Enabled(c, s, FlushCheck) == Enabled(c, s, CloseStart) == (s.phase == Running)
    ensures Enabled(c, s, Reject) == Enabled(c, s, FlushReturn) == (s.phase != Running)
    ensures s.phase == Drained ==> !Enabled(c, s, WorkerTake)
  {
    hide WorkerIdle, Ready;
  }

  /** Over every run: before Close a Send and a Flush pass the check, and from then on they do not;
      the last drain comes once, after Close, and the worker takes no batch after it. */
  lemma {:induction false} CloseDecides(c: Config, states: seq<State>, steps: seq<Step>, k: nat)
    requires IsRun(c, states, steps) && k <= |steps|
    ensures states[k].phase == Running <==> CloseStart !in steps[..k]
    ensures states[k].phase == Drained <==> Drain in steps[..k]
    ensures Enabled(c, states[k], PassCheck) <==> CloseStart !in steps[..k]
    ensures Enabled(c, states[k], Reject) <==> CloseStart in steps[..k]
    ensures Enabled(c, states[k], FlushCheck) <==> CloseStart !in steps[..k]
    ensures Enabled(c, states[k], FlushReturn) <==> CloseStart in steps[..k]
    ensures Enabled(c, states[k], CloseStart) <==> CloseStart !in steps[..k]
    ensures Drain in steps[..k] ==> CloseStart in steps[..k] && !Enabled(c, states[k], WorkerTake)
  {
    hide Take, Enabled;
    PhaseEnables(c, states[k]);
    if k == 0 {
    } else {
      CloseDecides(c, states, steps, k - 1);
      StepPhase(c, states[k - 1], steps[k - 1]);
      assert steps[..k] == steps[..k - 1] + [steps[k - 1]];
    }
  }

  // ---------------------------------------------------------------------------------------
  // One batch at a time
  // ---------------------------------------------------------------------------------------

  /** The batch has events to settle, or its lock to let go. */
  predicate Out(f: Flight) {
    f.batch != [] || f.sending
  }

  /** The worker has one batch out at most, and none after the last drain. */
  ghost predicate OneOut(s: State) {
    && (forall i, j :: 0 <= i < j < |s.flights| && s.flights[i].worker && s.flights[j].worker ==>
          !Out(s.flights[i]) || !Out(s.flights[j]))
    && (s.phase == Drained ==> forall i :: 0 <= i < |s.flights| && s.flights[i].worker ==> !Out(s.flights[i]))
  }

  lemma OneOutKeeps(c: Config, s: State, step: Step)
    requires OneOut(s) && Enabled(c, s, step)
    ensures OneOut(Take(c, s, step))
  {
    hide Ready, Retry.CallOf, Retry.Select;
  }

  /** Over every run: the worker never has two batches out, and takes one only when it has none. */
  lemma {:induction false} OneBatchOut(c: Config, states: seq<State>, steps: seq<Step>, k: nat)
    requires IsRun(c, states, steps) && k <= |steps|
    ensures OneOut(states[k])
    ensures forall i, j :: 0 <= i < j < |states[k].flights| && states[k].flights[i].worker && states[k].flights[j].worker ==>
      || (states[k].flights[i].batch == [] && !states[k].flights[i].sending)
      || (states[k].flights[j].batch == [] && !states[k].flights[j].sending)
    ensures k < |steps| && steps[k] == WorkerTake ==>
      forall i :: 0 <= i < |states[k].flights| && states[k].flights[i].worker ==>
        states[k].flights[i].batch == [] && !states[k].flights[i].sending
  {
    hide Take;
    if k == 0 {
      NoneOut();
    } else {
      OneBatchOut(c, states, steps, k - 1);
      OneOutKeeps(c, states[k - 1], steps[k - 1]);
    }
  }

  lemma NoneOut()
    ensures OneOut(START)
  {
  }

  /** A batch that was locked and is not any more has been settled to the last event. */
  lemma {:induction false} LockedUntilSettled(c: Config, states: seq<State>, steps: seq<Step>, i: nat, k: nat, t: nat)
    requires IsRun(c, states, steps) && i < k <= |steps| && steps[i] == Lock(t)
    ensures t < |states[k].flights| && (!states[k].flights[t].sending ==> states[k].flights[t].batch == [])
  {
    hide Enabled, Take;
    if i < k - 1 {
      LockedUntilSettled(c, states, steps, i, k - 1, t);
      StepSettles(c, states[k - 1], steps[k - 1], t);
    } else {
      LockIsHeld(c, states[i], t);
    }
  }

  lemma LockIsHeld(c: Config, s: State, t: nat)
    requires Enabled(c, s, Lock(t))
    ensures t < |Take(c, s, Lock(t)).flights| && Take(c, s, Lock(t)).flights[t].sending
  {
  }

  lemma StepSettles(c: Config, s: State, step: Step, t: nat)
    requires Enabled(c, s, step) && t < |s.flights| && (!s.flights[t].sending ==> s.flights[t].batch == [])
    ensures var f := Take(c, s, step).flights;
      t < |f| && (!f[t].sending ==> f[t].batch == [])
  {
    hide Ready, WorkerIdle, Retry.CallOf, Retry.LeftOf;
  }

  // ---------------------------------------------------------------------------------------
  // No schedule gets stuck
  // ---------------------------------------------------------------------------------------

  /** A step of a call under way, of the worker, or of the backend. */
  ghost predicate Moves(s: State, step: Step) {
    match step
    case Append => true
    case CountEvicted => true
    case WorkerTake => true
    case FlushTake => true
    case Lock(t) => t < |s.flights| && s.flights[t].batch != []
    case Answer(_, _) => true
    case Abandon(_) => true
    case Unlock(_) => true
    case Drain => true
    case _ => false
  }

  lemma NoneSending(c: Config, s: State)
    requires Inv(c, s) && forall step :: Moves(s, step) ==> !Enabled(c, s, step)
    ensures s.lock == -1 && forall i :: 0 <= i < |s.flights| ==> !s.flights[i].sending && s.flights[i].batch == []
  {
    hide EachOnce, InOrder, Timely, Counted, Bounded, LateOnly, Ready, WorkerIdle;
    assert s.lock != -1 ==> 0 <= s.lock < |s.flights| && s.flights[s.lock].sending;
    forall i | 0 <= i < |s.flights|
      ensures !s.flights[i].sending
    {
      assert Moves(s, Abandon(i)) && !Enabled(c, s, Abandon(i));
    }
    forall i | 0 <= i < |s.flights|
      ensures s.flights[i].batch == []
    {
      assert s.flights[i].batch != [] ==> Moves(s, Lock(i)) && !Enabled(c, s, Lock(i));
    }
  }

  /** Whenever nothing can move but the clock, a new call and a lock that has nothing to send, every event is sent, dropped, or waits in the buffer; before Close
      fewer than batchSize wait, the oldest for less than the interval; and a Close that began has
      drained the buffer. */
  lemma StuckIsSettled(c: Config, states: seq<State>, steps: seq<Step>, k: nat)
    requires Sane(c) && IsRun(c, states, steps) && k <= |steps|
    requires forall step :: Enabled(c, states[k], step) ==>
      || step.Wait? || step == PassCheck || step == Reject || step == FlushCheck || step == FlushReturn || step == CloseStart
      || (step.Lock? && step.t < |states[k].flights| && states[k].flights[step.t].batch == [])
    ensures var s := states[k];
      && s.passed == 0 && s.evicted == [] && s.flushes == 0
      && (forall i :: 0 <= i < |s.flights| ==> s.flights[i].batch == [])
      && (CloseStart in steps[..k] ==> Drain in steps[..k])
      && (CloseStart !in steps[..k] && s.buf != [] ==>
            && |s.buf| < c.batchSize
            && s.buf[0] < |s.arrivals| && s.now - s.arrivals[s.buf[0]] < c.interval)
  {
    hide Inv, Take;
    EveryRun(c, states, steps, k);
    CloseDecides(c, states, steps, k);
    NoneSending(c, states[k]);
    var s := states[k];
    assert !Enabled(c, s, Append) && !Enabled(c, s, CountEvicted) && !Enabled(c, s, FlushTake);
    assert !Enabled(c, s, WorkerTake) && !Enabled(c, s, Drain);
    OldestIsTimely(c, s);
  }

  lemma OldestIsTimely(c: Config, s: State)
    requires Inv(c, s)
    ensures s.buf != [] ==> s.buf[0] < |s.arrivals| && s.oldest <= s.arrivals[s.buf[0]]
  {
    hide EachOnce, InOrder, Counted, Bounded, LateOnly;
  }
}
