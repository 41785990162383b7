/** writer.go: when a line is dropped, that the writer stops once, and that no schedule gets stuck. */
module EventWriterPromises {
  import opened GoBytes
  import opened EventWriter

  // ---------------------------------------------------------------------------------------
  // Only a full queue drops a line
  // ---------------------------------------------------------------------------------------

  /** How often, up to step k, a producer found cap entries in the queue. */
  function FullFinds(states: seq<State>, steps: seq<Step>, k: nat): nat
    requires k <= |steps| && k <= |states|
  {
    if k == 0 then 0
    else
      var s := states[k - 1];
      FullFinds(states, steps, k - 1) + if steps[k - 1] == FindFull && |s.queue| == s.cap then 1 else 0
  }

  lemma StepDrops(s: State, step: Step)
    requires Inv(s) && Enabled(s, step)
    ensures var t := Take(s, step);
      && t.cap == s.cap
      && t.dropped + t.finders <=
           s.dropped + s.finders + (if step == FindFull && |s.queue| == s.cap then 1 else 0)
      && s.dropped <= t.dropped <= s.dropped + 1
      && (t.dropped == s.dropped + 1 <==> step == Evict && s.queue != [])
  {
    hide Count, Lines, StopsAt, FateFits;
  }

  /** Over every run: there are no more dropped lines than times a producer found the queue full. */
  lemma {:induction false} DropsAreFullFinds(cap: nat, states: seq<State>, steps: seq<Step>, k: nat)
    requires IsRun(cap, states, steps) && k <= |steps|
    ensures states[k].cap == cap
    ensures states[k].dropped + states[k].finders <= FullFinds(states, steps, k)
  {
    hide Inv, Take, Enabled;
    if k == 0 {
    } else {
      DropsAreFullFinds(cap, states, steps, k - 1);
      EveryRun(cap, states, steps, k - 1);
      StepDrops(states[k - 1], steps[k - 1]);
    }
  }

  /** So a run in which the queue always has room drops nothing. */
  lemma {:induction false} RoomDropsNothing(cap: nat, states: seq<State>, steps: seq<Step>, k: nat)
    requires IsRun(cap, states, steps) && k <= |steps|
    requires forall j :: 0 <= j < k ==> |states[j].queue| < cap
    ensures FullFinds(states, steps, k) == 0 && states[k].dropped == 0
  {
    hide Inv, Take, Enabled;
    DropsAreFullFinds(cap, states, steps, k);
    if k == 0 {
    } else {
      RoomDropsNothing(cap, states, steps, k - 1);
      DropsAreFullFinds(cap, states, steps, k - 1);
    }
  }

  // ---------------------------------------------------------------------------------------
  // The stop
  // ---------------------------------------------------------------------------------------

  lemma StepStops(s: State, step: Step)
    requires Enabled(s, step)
    ensures var t := Take(s, step);
      && t.stopped == (s.stopped || step == SetStopped)
      && t.stopSent == (s.stopSent || step == PushStop)
      && (step == PushStop ==> !s.stopSent) && (step == SetStopped ==> !s.stopped && s.stopAt.Some?)
  {
  }

  /** The stop marker is pushed once at most, and the flag is set once at most, after the goroutine
      has taken the marker; from then on no producer and no Flush starts. */
  lemma {:induction false} StopsOnce(cap: nat, states: seq<State>, steps: seq<Step>, k: nat)
    requires IsRun(cap, states, steps) && k <= |steps|
    ensures states[k].stopSent <==> PushStop in steps[..k]
    ensures states[k].stopped <==> SetStopped in steps[..k]
    ensures forall i, j :: 0 <= i < j < k && steps[i] == steps[j] ==> steps[i] != PushStop && steps[i] != SetStopped
    ensures forall i, j :: 0 <= i < j < k && steps[i] == SetStopped ==> steps[j] != Offer && steps[j] != StartFlush
  {
    hide Inv, Take, Enabled;
    if k == 0 {
    } else {
      StopsOnce(cap, states, steps, k - 1);
      StepStops(states[k - 1], steps[k - 1]);
      NoneStarts(states[k - 1], steps[k - 1]);
      assert steps[..k] == steps[..k - 1] + [steps[k - 1]];
    }
  }

  lemma NoneStarts(s: State, step: Step)
    requires Enabled(s, step)
    ensures step == Offer || step == StartFlush ==> !s.stopped
    ensures step == Refuse ==> s.stopped
  {
  }

  // ---------------------------------------------------------------------------------------
  // No schedule gets stuck, and none goes on for ever
  // ---------------------------------------------------------------------------------------

  /** When nothing can move but a new call, every line handed to write has entered the queue or was refused, and
      what entered was written or evicted; behind a goroutine that has returned, entries may be
      left, and a Flush waits if they fill the queue. */
  lemma StuckIsSettled(cap: nat, states: seq<State>, steps: seq<Step>, k: nat)
    requires IsRun(cap, states, steps) && k <= |steps| && cap >= 1
    requires forall step :: Enabled(states[k], step) ==>
      step == Offer || step == Refuse || step == StartFlush || step == PushStop
    ensures states[k].callers == 0 && states[k].finders == 0
    ensures states[k].stopAt.None? ==> states[k].queue == [] && states[k].flushers == 0
    ensures states[k].stopAt.Some? ==> states[k].stopped && (states[k].flushers == 0 || |states[k].queue| == cap)
  {
    hide Take, Count, Lines, StopsAt, FateFits;
    DropsAreFullFinds(cap, states, steps, k);
    EveryRun(cap, states, steps, k);
    var s := states[k];
    assert !Enabled(s, PushLine) && !Enabled(s, FindFull) && !Enabled(s, Evict) && !Enabled(s, PushMark);
    assert !Enabled(s, Consume) && !Enabled(s, SetStopped);
  }

  /** The pushes still to come. */
  function Pushes(s: State): nat {
    s.callers + s.finders + s.flushers + if s.stopSent then 0 else 1
  }

  /** Which of the producers can still change sides: with an empty queue none finds it full. */
  function Tries(s: State): nat {
    (if s.queue == [] then s.finders else s.callers) + if s.stopped then 0 else 1
  }

  /** Every step that starts no new call pushes an entry, takes one out, or leaves one try fewer. */
  lemma StepLowers(s: State, step: Step)
    requires Enabled(s, step) && s.cap >= 1 && step != Offer && step != Refuse && step != StartFlush
    ensures var t := Take(s, step);
      || Pushes(t) < Pushes(s)
      || (Pushes(t) == Pushes(s) && |t.queue| < |s.queue|)
      || (Pushes(t) == Pushes(s) && |t.queue| == |s.queue| && Tries(t) < Tries(s))
  {
  }
}
