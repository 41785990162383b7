/**
 pipeline/pipeline.go: when events reach the backend in the order they arrived. Taking a batch
 and sending it are under different locks, so it is not always so.
 */
module PipelineOrder {
  import Retry
  import opened PipelineRuns
  import opened PipelinePromises

  /** Batches are sent in the order they were taken, and no answer accepts an event behind one it
      leaves over. */
  predicate OrderedStep(s: State, step: Step) {
    match step
    case Lock(t) => forall u :: 0 <= u < t && u < |s.flights| ==> s.flights[u].batch == []
    case Answer(t, a) =>
      t < |s.flights| ==> AllBefore(Retry.CallOf(s.flights[t].batch, a).sent, Retry.LeftOf(s.flights[t].batch, a))
    case _ => true
  }

  predicate AllBefore(a: seq<nat>, b: seq<nat>) {
    forall i, j :: 0 <= i < |a| && 0 <= j < |b| ==> a[i] < b[j]
  }

  predicate Ascending(q: seq<nat>) {
    forall i, j :: 0 <= i < j < |q| ==> q[i] < q[j]
  }

  /** Batches hold ascending events, later batches later ones; what was sent comes before all
      that is out, and the batch being sent is the first that is not settled. */
  ghost predicate FlightsOrdered(flights: seq<Flight>, n: nat) {
    && (forall u :: 0 <= u < |flights| ==> Ascending(flights[u].batch) && forall i :: 0 <= i < |flights[u].batch| ==> flights[u].batch[i] < n)
    && (forall u, v :: 0 <= u < v < |flights| ==> AllBefore(flights[u].batch, flights[v].batch))
  }

  ghost predicate SentBefore(sent: seq<nat>, flights: seq<Flight>, n: nat) {
    && Ascending(sent) && (forall i :: 0 <= i < |sent| ==> sent[i] < n)
    && forall u :: 0 <= u < |flights| ==> AllBefore(sent, flights[u].batch)
  }

  ghost predicate FirstSends(flights: seq<Flight>) {
    forall u, t :: 0 <= u < t < |flights| && flights[t].sending ==> flights[u].batch == []
  }

  ghost predicate OrderInv(s: State) {
    FlightsOrdered(s.flights, |s.left|) && SentBefore(s.sentLog, s.flights, |s.left|) && FirstSends(s.flights)
  }

  lemma AscendingConcat(a: seq<nat>, b: seq<nat>)
    requires Ascending(a) && Ascending(b) && AllBefore(a, b)
    ensures Ascending(a + b)
  {
  }

  /** The events a fate selects stand in the batch, in its order. */
  lemma {:induction false} SelectAscends(batch: seq<nat>, a: Retry.Answer, fate: Retry.Fate)
    requires a.Partial? && Ascending(batch)
    ensures Ascending(Retry.Select(batch, a, fate))
    ensures forall x :: x in Retry.Select(batch, a, fate) ==> x in batch
  {
    if batch == [] {
    } else {
      var n := |batch| - 1;
      SelectAscends(batch[..n], a, fate);
      var front := Retry.Select(batch[..n], a, fate);
      forall i | 0 <= i < |front|
        ensures front[i] < batch[n]
      {
        assert front[i] in batch[..n];
      }
    }
  }

  lemma CallAscends(batch: seq<nat>, a: Retry.Answer)
    requires Ascending(batch)
    ensures Ascending(Retry.CallOf(batch, a).sent) && Ascending(Retry.LeftOf(batch, a))
    ensures forall x :: x in Retry.CallOf(batch, a).sent || x in Retry.LeftOf(batch, a) ==> x in batch
  {
    if a.Partial? {
      SelectAscends(batch, a, Retry.Sent);
      SelectAscends(batch, a, Retry.Again);
    }
  }

  lemma SettleOrders(s: State, t: nat, sent: seq<nat>, dropped: seq<nat>, rest: seq<nat>)
    requires OrderInv(s) && t < |s.flights| && s.flights[t].sending
    requires Ascending(sent) && Ascending(rest) && AllBefore(sent, rest)
    requires forall x :: x in sent || x in rest ==> x in s.flights[t].batch
    ensures OrderInv(Settle(s, t, sent, dropped, rest))
  {
    var r := Settle(s, t, sent, dropped, rest);
    var batch := s.flights[t].batch;
    Members(sent);
    Members(rest);
    Members(batch);
    assert AllBefore(s.sentLog, batch);
    SubBefore(s.sentLog, s.sentLog, sent, batch);
    AscendingConcat(s.sentLog, sent);
    forall u, v | 0 <= u < v < |r.flights|
      ensures AllBefore(r.flights[u].batch, r.flights[v].batch)
    {
      assert AllBefore(s.flights[u].batch, s.flights[v].batch);
      Members(r.flights[u].batch);
      Members(r.flights[v].batch);
      SubBefore(r.flights[u].batch, s.flights[u].batch, r.flights[v].batch, s.flights[v].batch);
    }
    forall u | 0 <= u < |r.flights|
      ensures AllBefore(r.sentLog, r.flights[u].batch)
    {
      assert AllBefore(s.sentLog, s.flights[u].batch);
      SubBefore(s.sentLog, s.sentLog, r.flights[u].batch, s.flights[u].batch);
      SentThenLater(s, t, sent, rest, u);
      BeforeConcat(s.sentLog, sent, r.flights[u].batch);
    }
    assert forall i :: 0 <= i < |rest| ==> rest[i] < |s.left|;
    assert forall i :: 0 <= i < |sent| ==> sent[i] < |s.left|;
    assert rest != [] ==> rest[0] in batch;
  }

  lemma Members(q: seq<nat>)
    ensures forall i :: 0 <= i < |q| ==> q[i] in q
  {
  }

  lemma SubBefore(a': seq<nat>, a: seq<nat>, b': seq<nat>, b: seq<nat>)
    requires AllBefore(a, b) && (forall x :: x in a' ==> x in a) && (forall y :: y in b' ==> y in b)
    ensures AllBefore(a', b')
  {
    forall i, j | 0 <= i < |a'| && 0 <= j < |b'|
      ensures a'[i] < b'[j]
    {
      assert a'[i] in a && b'[j] in b;
    }
  }

  lemma BeforeConcat(a: seq<nat>, b: seq<nat>, c: seq<nat>)
    requires AllBefore(a, c) && AllBefore(b, c)
    ensures AllBefore(a + b, c)
  {
  }

  lemma SentThenLater(s: State, t: nat, sent: seq<nat>, rest: seq<nat>, u: nat)
    requires OrderInv(s) && t < |s.flights| && s.flights[t].sending && u < |s.flights|
    requires AllBefore(sent, rest) && forall x :: x in sent ==> x in s.flights[t].batch
    ensures u != t ==> AllBefore(sent, s.flights[u].batch)
  {
    if t < u {
      assert AllBefore(s.flights[t].batch, s.flights[u].batch);
      forall i | 0 <= i < |sent|
        ensures sent[i] in s.flights[t].batch
      {
        assert sent[i] in sent;
      }
    } else if u < t {
      assert s.flights[u].batch == [];
    }
  }

  lemma TakeOrders(s: State, n: nat, worker: bool)
    requires OrderInv(s) && InOrder(s.left, s.buf, |s.arrivals|) && n <= |s.buf|
    ensures OrderInv(TakeStep(s, n, worker))
  {
    var r := TakeStep(s, n, worker);
    var f := |s.flights|;
    forall i | 0 <= i < n
      ensures s.buf[..n][i] == |s.left| + i
    {
      BufIsTail(s.left, s.buf, |s.arrivals|, i);
    }
    assert r.flights[f].batch == s.buf[..n];
    assert forall u :: 0 <= u < f ==> r.flights[u] == s.flights[u];
  }

  lemma AppendOrders(c: Config, s: State)
    requires OrderInv(s) && s.passed > 0
    ensures OrderInv(AppendStep(c, s))
  {
  }

  lemma StepOrders(c: Config, s: State, step: Step)
    requires Inv(c, s) && OrderInv(s) && Enabled(c, s, step) && OrderedStep(s, step)
    ensures OrderInv(Take(c, s, step))
  {
    hide EachOnce, Timely, Counted, Bounded, LateOnly, Ready, WorkerIdle, AppendStep, TakeStep, Settle;
    match step
    case Append => AppendOrders(c, s);
    case WorkerTake => TakeKeepsOrder(s, if |s.buf| > c.batchSize then c.batchSize else |s.buf|, true);
    case FlushTake => TakeKeepsOrder(s, |s.buf|, false);
    case Drain => TakeKeepsOrder(s, |s.buf|, false);
    case Answer(t, a) =>
      CallAscends(s.flights[t].batch, a);
      var call := Retry.CallOf(s.flights[t].batch, a);
      hide Retry.CallOf, Retry.LeftOf;
      SettleOrders(s, t, call.sent, call.dropped, Retry.LeftOf(s.flights[t].batch, a));
    case Abandon(t) => SettleOrders(s, t, [], s.flights[t].batch, []);
    case Lock(t) => LockOrders(s, t, true, t);
    case Unlock(t) => LockOrders(s, t, false, -1);
    case _ =>
  }

  lemma TakeKeepsOrder(s: State, n: nat, worker: bool)
    requires OrderInv(s) && InOrder(s.left, s.buf, |s.arrivals|) && n <= |s.buf|
    ensures forall phase, at, flushes :: OrderInv(TakeStep(s, n, worker).(phase := phase, passedAtDrain := at, flushes := flushes))
  {
    hide FlightsOrdered, SentBefore, FirstSends;
    TakeOrders(s, n, worker);
  }

  lemma LockOrders(s: State, t: nat, sending: bool, lock: int)
    requires OrderInv(s) && t < |s.flights|
    requires sending ==> forall u :: 0 <= u < t ==> s.flights[u].batch == []
    ensures OrderInv(s.(lock := lock, flights := s.flights[t := s.flights[t].(sending := sending)]))
  {
    var fs := s.flights[t := s.flights[t].(sending := sending)];
    assert forall u :: 0 <= u < |fs| ==> fs[u].batch == s.flights[u].batch;
    forall u, v | 0 <= u < v < |fs|
      ensures AllBefore(fs[u].batch, fs[v].batch)
    {
      assert AllBefore(s.flights[u].batch, s.flights[v].batch);
    }
    forall u | 0 <= u < |fs|
      ensures Ascending(fs[u].batch) && AllBefore(s.sentLog, fs[u].batch)
    {
      assert Ascending(s.flights[u].batch) && AllBefore(s.sentLog, s.flights[u].batch);
    }
  }

  /** Over every run whose batches are sent in the order they were taken, and whose answers leave
      over no event before one they accept, events reach the backend in arrival order. */
  lemma {:induction false} SendsInOrder(c: Config, states: seq<State>, steps: seq<Step>, k: nat)
    requires Sane(c) && IsRun(c, states, steps) && k <= |steps|
    requires forall i :: 0 <= i < k ==> OrderedStep(states[i], steps[i])
    ensures OrderInv(states[k]) && Ascending(states[k].sentLog)
  {
    hide Inv, Take, Enabled, OrderedStep, FlightsOrdered, FirstSends;
    if k == 0 {
      StartOrdered();
    } else {
      EveryRun(c, states, steps, k - 1);
      SendsInOrder(c, states, steps, k - 1);
      StepOrders(c, states[k - 1], steps[k - 1]);
    }
  }

  lemma StartOrdered()
    ensures OrderInv(START)
  {
  }

  /** Nothing in the pipeline makes batches lock in the order they were taken: a Flush can send
      event 1 while the worker holds event 0. */
  lemma BatchesCanOvertake() returns (states: seq<State>, steps: seq<Step>, s: State)
    ensures IsRun(ONE, states, steps) && states[|steps|] == s
    ensures s.sentLog == [1] && |s.flights| == 2 && s.flights[0].batch == [0]
  {
    states, steps, s := OneTaken();
    states, steps, s := Go(ONE, states, steps, PassCheck);
    states, steps, s := Go(ONE, states, steps, Append);
    assert s.buf == [1];
    states, steps, s := Go(ONE, states, steps, FlushCheck);
    states, steps, s := Go(ONE, states, steps, FlushTake);
    assert s.flights == [Flight([0], true, false), Flight([1], false, false)] by {
      assert [1][..1] == [1];
    }
    states, steps, s := Go(ONE, states, steps, Lock(1));
    states, steps, s := Go(ONE, states, steps, Answer(1, Retry.Accepted));
  }
}
