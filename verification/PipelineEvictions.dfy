/** pipeline/pipeline.go, Send and the worker: what leaves the buffer, and when. */
module PipelineEvictions {
  import opened PipelineRuns

  // ---------------------------------------------------------------------------------------
  // Send
  // ---------------------------------------------------------------------------------------

  /** A Send puts its event behind the others. Nothing is evicted while there is room; from a full
      buffer the oldest event goes, and no other. */
  lemma SendEvicts(c: Config, s: State)
    requires Enabled(c, s, Append)
    ensures var t, e := Take(c, s, Append), |s.arrivals|;
      && t.arrivals == s.arrivals + [s.now] && t.flights == s.flights && t.sentLog == s.sentLog && t.dropLog == s.dropLog
      && (|s.buf| < c.maxBuffer || s.buf == [] ==> t.evicted == s.evicted && t.buf == s.buf + [e] && t.left == s.left)
      && (|s.buf| >= c.maxBuffer && s.buf != [] ==>
            t.evicted == s.evicted + [s.buf[0]] && t.buf == s.buf[1..] + [e] && t.left == s.left + [s.buf[0]])
  {
  }

  /** The step is a Send that finds the event first in a full buffer. */
  predicate FindsFull(c: Config, s: State, step: Step, e: nat) {
    step == Append && |s.buf| >= c.maxBuffer && s.buf != [] && s.buf[0] == e
  }

  /** No other step evicts anything. */
  lemma StepEvicts(c: Config, s: State, step: Step, e: nat)
    requires Enabled(c, s, step)
    ensures e in Take(c, s, step).evicted ==> e in s.evicted || FindsFull(c, s, step, e)
    ensures FindsFull(c, s, step, e) ==> e in Take(c, s, step).evicted
  {
    hide Ready, WorkerIdle;
  }

  /** Over every run: an event is evicted at some time up to now exactly when some Send found it
      first in a buffer of at least maxBuffer events. */
  lemma {:induction false} EvictedExactly(c: Config, states: seq<State>, steps: seq<Step>, k: nat, e: nat)
    requires IsRun(c, states, steps) && k <= |steps|
    ensures (exists j :: 0 <= j <= k && e in states[j].evicted) <==>
      exists i :: 0 <= i < k && FindsFull(c, states[i], steps[i], e)
  {
    hide Take, Enabled, FindsFull;
    if k == 0 {
    } else {
      EvictedExactly(c, states, steps, k - 1, e);
      StepEvicts(c, states[k - 1], steps[k - 1], e);
      if j :| 0 <= j <= k && e in states[j].evicted {
        assert j < k || e in states[k - 1].evicted || FindsFull(c, states[k - 1], steps[k - 1], e);
      }
      if FindsFull(c, states[k - 1], steps[k - 1], e) {
        assert e in states[k].evicted;
      }
    }
  }

  /** So a run whose buffer never fills evicts nothing. */
  lemma RoomEvictsNothing(c: Config, states: seq<State>, steps: seq<Step>, k: nat)
    requires IsRun(c, states, steps) && k <= |steps|
    requires forall i :: 0 <= i < k && steps[i] == Append ==> |states[i].buf| < c.maxBuffer
    ensures states[k].evicted == []
  {
    hide Take, Enabled;
    if states[k].evicted != [] {
      var e := states[k].evicted[0];
      assert e in states[k].evicted;
      EvictedExactly(c, states, steps, k, e);
    }
  }

  // ---------------------------------------------------------------------------------------
  // The worker
  // ---------------------------------------------------------------------------------------

  /** An idle worker can take a batch once batchSize events wait, or the oldest has waited for the
      interval. */
  lemma DueIsTaken(c: Config, s: State)
    requires Inv(c, s) && s.phase != Drained && s.buf != []
    requires forall i :: 0 <= i < |s.flights| && s.flights[i].worker ==> s.flights[i].batch == [] && !s.flights[i].sending
    requires s.buf[0] < |s.arrivals| && (|s.buf| >= c.batchSize || s.now - s.arrivals[s.buf[0]] >= c.interval)
    ensures Enabled(c, s, WorkerTake)
  {
  }

  /** It takes the oldest events, as many as wait and no more than batchSize, and never before
      one of the two has come: the timer counts from the Send that found the buffer empty. */
  lemma WorkerTakes(c: Config, s: State)
    requires Enabled(c, s, WorkerTake)
    ensures s.buf != [] && (|s.buf| >= c.batchSize || s.now - s.oldest >= c.interval)
    ensures var t := Take(c, s, WorkerTake);
      exists n :: 0 <= n <= |s.buf| && n <= c.batchSize && (n == |s.buf| || n == c.batchSize)
        && t.buf == s.buf[n..] && t.flights == s.flights + [Flight(s.buf[..n], true, false)] && t.evicted == s.evicted
  {
    var n := if |s.buf| > c.batchSize then c.batchSize else |s.buf|;
    assert Take(c, s, WorkerTake).buf == s.buf[n..];
  }
}
