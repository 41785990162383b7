/**
 pipeline/pipeline.go: what the invariant of every run promises to a caller, and by runs that
 show it, what the pipeline does not promise.
 */
module PipelinePromises {
  import opened PipelineRuns

  /** Conservation: an event that entered the buffer is buffered, being evicted, in flight, sent
      or dropped, and in one of these only. */
  lemma OnePlace(c: Config, s: State, e: nat)
    requires Inv(c, s) && e < |s.arrivals|
    ensures Times(s.buf, e) + Times(s.evicted, e) + TimesFlying(s.flights, e) + Times(s.sentLog, e) + Times(s.dropLog, e) == 1
  {
    assert Places(s.buf, s.evicted, s.flights, s.sentLog, s.dropLog, e) == 1;
  }

  /** The events in flight, batch after batch. */
  function Flying(flights: seq<Flight>): seq<nat> {
    if flights == [] then [] else Flying(flights[..|flights| - 1]) + flights[|flights| - 1].batch
  }

  lemma {:induction false} TimesOfFlying(flights: seq<Flight>, e: nat)
    ensures Times(Flying(flights), e) == TimesFlying(flights, e)
  {
    if flights == [] {
    } else {
      var n := |flights| - 1;
      TimesOfFlying(flights[..n], e);
      TimesConcat(Flying(flights[..n]), flights[n].batch, e);
    }
  }

  /** A sequence that holds each number below n once, and nothing else, has n elements. */
  lemma OnceEach(all: seq<nat>, n: nat)
    requires forall e: nat :: Times(all, e) == if e < n then 1 else 0
    ensures |all| == n
  {
    forall e: nat
      ensures multiset(all)[e] == multiset(Ids(n))[e]
    {
      assert Times(all, e) == if e < n then 1 else 0;
      IdOnce(n, e);
    }
    assert multiset(all) == multiset(Ids(n));
    assert |multiset(all)| == |all| && |multiset(Ids(n))| == n;
  }

  /** And the counters say so: the sends that passed the filter split into what is held and
      what was counted. */
  lemma CountersAddUp(c: Config, s: State)
    requires Inv(c, s)
    ensures |s.arrivals| + s.rejected == |s.buf| + |s.evicted| + |Flying(s.flights)| + s.sentCount + s.dropCount
  {
    hide Times, TimesFlying, Flying;
    var f := Flying(s.flights);
    var all := (((s.buf + s.evicted) + f) + s.sentLog) + s.dropLog;
    forall e: nat
      ensures Times(all, e) == if e < |s.arrivals| then 1 else 0
    {
      assert Places(s.buf, s.evicted, s.flights, s.sentLog, s.dropLog, e) == if e < |s.arrivals| then 1 else 0;
      TimesConcat(s.buf, s.evicted, e);
      TimesConcat(s.buf + s.evicted, f, e);
      TimesConcat((s.buf + s.evicted) + f, s.sentLog, e);
      TimesConcat(((s.buf + s.evicted) + f) + s.sentLog, s.dropLog, e);
      TimesOfFlying(s.flights, e);
    }
    OnceEach(all, |s.arrivals|);
  }

  lemma {:induction false} IdOnce(n: nat, e: nat)
    ensures multiset(Ids(n))[e] == if e < n then 1 else 0
  {
    if n == 0 {
    } else {
      IdsSnoc(n - 1);
      IdOnce(n - 1, e);
    }
  }

  // ---------------------------------------------------------------------------------------
  // Flush
  // ---------------------------------------------------------------------------------------

  lemma {:induction false} FlightOf(flights: seq<Flight>, e: nat) returns (u: nat)
    requires TimesFlying(flights, e) > 0
    ensures u < |flights| && e in flights[u].batch
  {
    var n := |flights| - 1;
    if Times(flights[n].batch, e) > 0 {
      u := n;
    } else {
      u := FlightOf(flights[..n], e);
    }
  }

  lemma LeftTheBuffer(left: seq<nat>, buf: seq<nat>, n: nat, e: nat)
    requires InOrder(left, buf, n) && e in left
    ensures e < n && e !in buf
  {
    var i :| 0 <= i < |left| && left[i] == e;
    assert (left + buf)[i] == e;
    forall j | 0 <= j < |buf|
      ensures buf[j] != e
    {
      assert (left + buf)[|left| + j] == buf[j];
    }
  }

  lemma FlyingAt(flights: seq<Flight>, u: nat, e: nat)
    requires u < |flights| && e in flights[u].batch
    ensures TimesFlying(flights, e) > 0
  {
    FlyingSet(flights, u, flights[u].(batch := []), e);
    assert flights[u := flights[u].(batch := [])][u].batch == [];
  }

  /** When a Flush that passed the closed check, and holds sendMu, has settled its own batch, an event that left the buffer is
      settled or evicted exactly when it is not in a batch that was taken and is not being sent. */
  lemma FlushSettles(c: Config, s: State, t: nat, e: nat)
    requires Inv(c, s) && Sending(s, t) && s.flights[t].batch == [] && e in s.left
    ensures e in s.sentLog || e in s.dropLog || e in s.evicted <==>
      !exists u :: 0 <= u < |s.flights| && e in s.flights[u].batch && !s.flights[u].sending
  {
    LeftTheBuffer(s.left, s.buf, |s.arrivals|, e);
    OnePlace(c, s, e);
    if TimesFlying(s.flights, e) > 0 {
      var u := FlightOf(s.flights, e);
      assert e in s.flights[u].batch && !s.flights[u].sending;
    }
    if u :| 0 <= u < |s.flights| && e in s.flights[u].batch && !s.flights[u].sending {
      FlyingAt(s.flights, u, e);
    }
  }

  /** So such a Flush returns with everything settled exactly when no other batch is out. */
  lemma FlushWaits(c: Config, s: State, t: nat)
    requires Inv(c, s) && Sending(s, t) && s.flights[t].batch == []
    ensures (forall e :: e in s.left ==> e in s.sentLog || e in s.dropLog || e in s.evicted)
      <==> forall u :: 0 <= u < |s.flights| ==> s.flights[u].batch == []
  {
    hide EachOnce, Timely, Counted, Bounded, LateOnly;
    forall e | e in s.left
      ensures e in s.sentLog || e in s.dropLog || e in s.evicted <==>
        !exists u :: 0 <= u < |s.flights| && e in s.flights[u].batch && !s.flights[u].sending
    {
      FlushSettles(c, s, t, e);
    }
    if u :| 0 <= u < |s.flights| && s.flights[u].batch != [] {
      var e := s.flights[u].batch[0];
      assert e in s.flights[u].batch;
      TakenHasLeft(c, s, u, e);
    }
  }

  /** What is in a batch has left the buffer. */
  lemma TakenHasLeft(c: Config, s: State, u: nat, e: nat)
    requires Inv(c, s) && u < |s.flights| && e in s.flights[u].batch
    ensures e in s.left
  {
    FlyingAt(s.flights, u, e);
    assert Places(s.buf, s.evicted, s.flights, s.sentLog, s.dropLog, e) == if e < |s.arrivals| then 1 else 0;
    assert e !in s.buf;
    assert Ids(|s.arrivals|)[e] == e;
    assert (s.left + s.buf)[e] == e;
  }

  // ---------------------------------------------------------------------------------------
  // What the pipeline does not promise, by runs that show it
  // ---------------------------------------------------------------------------------------

  const ONE := Config(1, 10, 1000)

  /** A run extended by one possible step. */
  lemma Go(c: Config, states: seq<State>, steps: seq<Step>, step: Step)
    returns (states': seq<State>, steps': seq<Step>, s: State)
    requires IsRun(c, states, steps) && Enabled(c, states[|steps|], step)
    ensures IsRun(c, states', steps') && steps' == steps + [step]
    ensures states'[|steps'|] == s == Take(c, states[|steps|], step)
  {
    hide Take, Enabled;
    s := Take(c, states[|steps|], step);
    states', steps' := states + [s], steps + [step];
  }

  /** One event enters the buffer, and the worker takes it. */
  lemma OneTaken() returns (states: seq<State>, steps: seq<Step>, s: State)
    ensures IsRun(ONE, states, steps) && states[|steps|] == s
    ensures s == START.(arrivals := [0], left := [0], flights := [Flight([0], true, false)])
  {
    hide Take, Enabled;
    OneSteps();
    states, steps, s := Go(ONE, [START], [], PassCheck);
    states, steps, s := Go(ONE, states, steps, Append);
    states, steps, s := Go(ONE, states, steps, WorkerTake);
  }

  lemma OneSteps()
    ensures Enabled(ONE, START, PassCheck) && Take(ONE, START, PassCheck) == START.(passed := 1)
    ensures Enabled(ONE, START.(passed := 1), Append)
    ensures Take(ONE, START.(passed := 1), Append) == START.(arrivals := [0], buf := [0])
    ensures Enabled(ONE, START.(arrivals := [0], buf := [0]), WorkerTake)
    ensures Take(ONE, START.(arrivals := [0], buf := [0]), WorkerTake) ==
      START.(arrivals := [0], left := [0], flights := [Flight([0], true, false)])
  {
    var s := START.(arrivals := [0], buf := [0]);
    assert AppendStep(ONE, START.(passed := 1)) == s;
    assert WorkerIdle(s) && Ready(ONE, s);
    TakeOnly(s);
    hide TakeStep, WorkerIdle, Ready, AppendStep;
  }

  lemma TakeOnly(s: State)
    requires s.buf == [0] && s.left == [] && s.flights == []
    ensures TakeStep(s, 1, true) == s.(buf := [], left := [0], flights := [Flight([0], true, false)])
  {
    assert s.buf[1..] == [] && s.buf[..1] == [0];
  }

  lemma EmptyFlush(c: Config, s: State)
    requires s.phase == Running && s.buf == [] && s.flushes == 0
    ensures var t := s.(flushes := 1);
      && Enabled(c, s, FlushCheck) && Take(c, s, FlushCheck) == t
      && Enabled(c, t, FlushTake) && Take(c, t, FlushTake) == s.(flights := s.flights + [Flight([], false, false)])
  {
    assert s.left + [] == s.left;
    assert s.buf[..0] == [] && s.buf[0..] == [];
  }

  lemma LockIdle(c: Config, s: State, t: nat)
    requires s.lock == -1 && t < |s.flights| && s.flights[t] == Flight([], false, false)
    ensures Enabled(c, s, Lock(t))
    ensures var u := Take(c, s, Lock(t)); Enabled(c, u, Unlock(t)) && Take(c, u, Unlock(t)) == s
  {
    var u := Take(c, s, Lock(t));
    assert Take(c, u, Unlock(t)).flights == s.flights;
  }

  /** Flush waits for a batch being sent, but not for one taken and not yet being sent: it can
      return while event 0 is in neither the buffer, nor the backend, nor the dropped count. */
  lemma FlushMissesTakenBatch() returns (states: seq<State>, steps: seq<Step>, s: State)
    ensures IsRun(ONE, states, steps) && states[|steps|] == s
    ensures steps != [] && steps[|steps| - 1] == Unlock(1)
    ensures s.flights == [Flight([0], true, false), Flight([], false, false)]
    ensures s.buf == [] && s.evicted == [] && s.sentLog == [] && s.dropLog == []
  {
    states, steps, s := OneTaken();
    EmptyFlush(ONE, s);
    hide Take, Enabled, IsRun;
    states, steps, s := Go(ONE, states, steps, FlushCheck);
    states, steps, s := Go(ONE, states, steps, FlushTake);
    LockIdle(ONE, s, 1);
    states, steps, s := Go(ONE, states, steps, Lock(1));
    states, steps, s := Go(ONE, states, steps, Unlock(1));
  }

  lemma CloseOne(s: State)
    requires s.phase == Running
    ensures Enabled(ONE, s, CloseStart) && Take(ONE, s, CloseStart) == s.(phase := Closing)
  {
  }

  lemma DrainOne(s: State)
    requires s.phase == Closing && s.buf == [0] && s.left == [] && s.flights == [] && s.passed == s.passedAtDrain
    ensures Enabled(ONE, s, Drain)
    ensures Take(ONE, s, Drain) == s.(buf := [], left := [0], flights := [Flight([0], false, false)], phase := Drained)
  {
    assert s.buf[1..] == [] && s.buf[..1] == [0];
  }

  lemma LockOne(s: State)
    requires s.lock == -1 && s.flights == [Flight([0], false, false)] && s.phase == Drained
    ensures Enabled(ONE, s, Lock(0))
    ensures var t := s.(lock := 0, flights := [Flight([0], false, true)]);
      Take(ONE, s, Lock(0)) == t && Enabled(ONE, t, FlushReturn) && Take(ONE, t, FlushReturn) == t
  {
    assert s.flights[0 := Flight([0], false, true)] == [Flight([0], false, true)];
  }

  /** And once Close has begun, Flush returns without waiting at all: event 0 is being sent by the
      final flush, and is settled nowhere. */
  lemma FlushReturnsWhileSending() returns (states: seq<State>, steps: seq<Step>, s: State)
    ensures IsRun(ONE, states, steps) && states[|steps|] == s
    ensures steps != [] && steps[|steps| - 1] == FlushReturn
    ensures s.flights == [Flight([0], false, true)] && s.sentLog == [] && s.dropLog == [] && s.evicted == []
  {
    hide Take, Enabled;
    OneSteps();
    states, steps, s := Go(ONE, [START], [], PassCheck);
    states, steps, s := Go(ONE, states, steps, Append);
    CloseOne(s);
    states, steps, s := Go(ONE, states, steps, CloseStart);
    DrainOne(s);
    states, steps, s := Go(ONE, states, steps, Drain);
    LockOne(s);
    states, steps, s := Go(ONE, states, steps, Lock(0));
    states, steps, s := Go(ONE, states, steps, FlushReturn);
  }

  // ---------------------------------------------------------------------------------------
  // After the final drain
  // ---------------------------------------------------------------------------------------

  /** A sender that passed the closed check before Close can append after the final drain. */
  lemma LateSendIsStranded() returns (states: seq<State>, steps: seq<Step>, s: State)
    ensures IsRun(ONE, states, steps) && states[|steps|] == s
    ensures s.phase == Drained && s.buf == [0] && s.flushes == 0
  {
    states, steps, s := Go(ONE, [START], [], PassCheck);
    states, steps, s := Go(ONE, states, steps, CloseStart);
    states, steps, s := Go(ONE, states, steps, Drain);
    assert s.buf == [];
    states, steps, s := Go(ONE, states, steps, Append);
  }

  /** Steps that lead from one state to another. */
  ghost predicate Leads(c: Config, s: State, steps: seq<Step>, t: State)
    decreases |steps|
  {
    if steps == [] then s == t
    else Enabled(c, s, steps[0]) && Leads(c, Take(c, s, steps[0]), steps[1..], t)
  }

  /** Some step takes events out of the buffer to send them. */
  ghost predicate CanLeave(c: Config, s: State) {
    exists step :: Enabled(c, s, step) && |Take(c, s, step).flights| > |s.flights|
  }

  /** After the final drain, an event in the buffer can still be sent exactly when a Flush is past
      its closed check. */
  lemma StuckExactly(c: Config, s: State)
    requires s.phase == Drained
    ensures CanLeave(c, s) <==> s.flushes > 0
    ensures s.flushes > 0 ==> Enabled(c, s, FlushTake) && Take(c, s, FlushTake).buf == []
  {
    if s.flushes > 0 {
      assert Enabled(c, s, FlushTake) && |Take(c, s, FlushTake).flights| > |s.flights|;
    }
  }

  /** Where an event that was stuck is from then on. */
  predicate StaysBehind(s: State, e: nat) {
    e in s.buf || e in s.evicted || e in s.dropLog
  }

  lemma StuckStep(c: Config, s: State, step: Step, e: nat)
    requires s.phase == Drained && s.flushes == 0 && StaysBehind(s, e) && Enabled(c, s, step)
    ensures var t := Take(c, s, step);
      t.phase == Drained && t.flushes == 0 && StaysBehind(t, e)
  {
    match step
    case Append =>
      if e in s.buf {
        var i :| 0 <= i < |s.buf| && s.buf[i] == e;
        if i > 0 {
          assert s.buf[1..][i - 1] == e;
        }
      }
    case CountEvicted =>
      if e in s.evicted {
        var i :| 0 <= i < |s.evicted| && s.evicted[i] == e;
        if i > 0 {
          assert s.evicted[1..][i - 1] == e;
        }
      }
    case _ =>
  }

  /** And then for good: no continuation sends an event that was left behind. */
  lemma {:induction false} StuckForGood(c: Config, s: State, steps: seq<Step>, t: State, e: nat)
    requires Sane(c) && Inv(c, s) && s.phase == Drained && s.flushes == 0 && StaysBehind(s, e) && Leads(c, s, steps, t)
    ensures StaysBehind(t, e) && e !in t.sentLog && !CanLeave(c, t)
    decreases |steps|
  {
    hide Take, Enabled, Inv, CanLeave, StaysBehind;
    if steps == [] {
      StuckExactly(c, t);
      BehindIsUnsent(c, t, e);
    } else {
      StepKeeps(c, s, steps[0]);
      StuckStep(c, s, steps[0], e);
      StuckForGood(c, Take(c, s, steps[0]), steps[1..], t, e);
    }
  }

  lemma BehindIsUnsent(c: Config, s: State, e: nat)
    requires Inv(c, s) && StaysBehind(s, e)
    ensures e !in s.sentLog
  {
    assert Places(s.buf, s.evicted, s.flights, s.sentLog, s.dropLog, e) <= 1;
  }

  /** Every Flush past its check takes an empty buffer, and then the sender appends. */
  lemma {:induction false} Strand(c: Config, s: State) returns (steps: seq<Step>, t: State)
    requires Sane(c) && s.phase == Drained && s.buf == [] && s.passed > 0
    ensures Leads(c, s, steps, t) && t.buf != [] && !CanLeave(c, t)
    decreases s.flushes
  {
    if s.flushes == 0 {
      t := Take(c, s, Append);
      steps := [Append];
      assert steps[1..] == [];
      assert Leads(c, t, [], t);
      StuckExactly(c, t);
    } else {
      var rest;
      rest, t := Strand(c, Take(c, s, FlushTake));
      steps := [FlushTake] + rest;
      assert steps[1..] == rest;
    }
  }

  /** Without such a sender the buffer stays empty for good. */
  lemma {:induction false} NoneStranded(c: Config, s: State, steps: seq<Step>, t: State)
    requires s.phase == Drained && s.buf == [] && s.passed == 0 && Leads(c, s, steps, t)
    ensures t.buf == []
    decreases |steps|
  {
    if steps == [] {
    } else {
      NoneStranded(c, Take(c, s, steps[0]), steps[1..], t);
    }
  }

  /** These steps leave events in the buffer that no step can send. */
  ghost predicate Strands(c: Config, s: State, steps: seq<Step>, t: State) {
    Leads(c, s, steps, t) && t.buf != [] && !CanLeave(c, t)
  }

  /** After a drain that left the buffer empty, some continuation leaves an event in it that no
      step can send exactly when a sender had passed the closed check. */
  lemma StrandsExactly(c: Config, s: State)
    requires Sane(c) && s.phase == Drained && s.buf == []
    ensures (exists steps, t :: Strands(c, s, steps, t)) <==> s.passed > 0
  {
    hide CanLeave, Leads;
    if s.passed > 0 {
      var steps, t := Strand(c, s);
      assert Strands(c, s, steps, t);
    } else {
      forall steps, t | Leads(c, s, steps, t)
        ensures t.buf == []
      {
        NoneStranded(c, s, steps, t);
      }
    }
  }
}
