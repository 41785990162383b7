/**
 drain/splunk/splunk.go, SendBatch: which events the pipeline sends again, or gives up, although
 the collector took them, in terms of what the collector answered.
 */
module SplunkRepeats {
  import opened GoBytes
  import opened Splunk
  import opened SplunkSend
  import Retry

  /** Going down the halves that hold i, the collector accepts a request before any fault. */
  predicate AcceptedBy(lo: nat, hi: nat, split: bool, n: nat, collector: Collector, i: nat)
    requires lo <= hi
    decreases hi - lo
  {
    var verdict := Judge(collector(n, lo, hi), hi - lo, split);
    if verdict.Landed? then lo <= i < hi
    else if !verdict.Halve? then false
    else if i < Middle(lo, hi) then AcceptedBy(lo, Middle(lo, hi), split, n + 1, collector, i)
    else
      var left := Send(lo, Middle(lo, hi), split, n + 1, collector);
      left.fault.None? && AcceptedBy(Middle(lo, hi), hi, split, n + 1 + |left.requests|, collector, i)
  }

  /** An event of a chunk landed exactly when the collector accepted a half that holds it. */
  lemma {:induction false} AcceptedLands(lo: nat, hi: nat, split: bool, n: nat, collector: Collector, i: nat)
    requires lo <= i < hi
    ensures Landings(Send(lo, hi, split, n, collector).requests, i) == if AcceptedBy(lo, hi, split, n, collector, i) then 1 else 0
    decreases hi - lo
  {
    hide Judge, Send, Landings, Both, Alone;
    var verdict := Judge(collector(n, lo, hi), hi - lo, split);
    if verdict.Halve? {
      var mid, a, b := Halves(lo, hi, split, n, collector);
      EachOnce(lo, mid, split, n + 1, collector, i);
      EachOnce(mid, hi, split, n + 1 + |a.requests|, collector, i);
      LandingsBoth(Request(lo, hi, Halve), a, b, i);
      if i < mid {
        AcceptedLands(lo, mid, split, n + 1, collector, i);
      } else {
        AcceptedLands(mid, hi, split, n + 1 + |a.requests|, collector, i);
      }
    } else {
      Settled(lo, hi, split, n, collector);
      LandingsAlone(Request(lo, hi, verdict), i);
    }
  }

  lemma LandingsAlone(q: Request, i: nat)
    requires q.lo <= q.hi && !q.verdict.Halve?
    ensures Landings(Alone(q).requests, i) == if Carries(q, i) then 1 else 0
  {
    assert [q][..0] == [];
  }

  lemma LandingsBoth(q: Request, a: Outcome, b: Outcome, i: nat)
    requires q.verdict.Halve?
    ensures Landings(Both(q, a, b).requests, i) ==
      Landings(a.requests, i) + if a.fault.None? then Landings(b.requests, i) else 0
  {
    assert [q][..0] == [] && Landings([q], i) == 0;
    LandingsAdd([q], a.requests, i);
    LandingsAdd([q] + a.requests, b.requests, i);
  }

  // ---------------------------------------------------------------------------------------
  // Where a batch stops
  // ---------------------------------------------------------------------------------------

  datatype Chunk = Chunk(start: nat, end: nat, n: nat)

  /** The first chunk that holds an event that cannot be encoded, or meets a fault. */
  datatype Stop = Ends | Unencodable(chunk: Chunk) | Faults(chunk: Chunk, fault: Fault)

  function StopOf(sizes: Sizes, start: nat, max: int, n: nat, collector: Collector): (stop: Stop)
    requires start <= |sizes|
    ensures !stop.Ends? ==> start <= stop.chunk.start < stop.chunk.end <= |sizes|
    decreases |sizes| - start
  {
    if start == |sizes| then Ends
    else
      var end := EndFrom(sizes, start, start, 0, max);
      if sizes[end - 1].None? then Unencodable(Chunk(start, end, n))
      else
        var o := Send(start, end, true, n, collector);
        if o.fault.Some? then Faults(Chunk(start, end, n), o.fault.value)
        else StopOf(sizes, end, max, n + |o.requests|, collector)
  }

  /** The chunk that i is sent in, if the batch gets there. */
  function ChunkOf(sizes: Sizes, start: nat, max: int, n: nat, collector: Collector, i: nat): (c: Option<Chunk>)
    requires start <= |sizes|
    ensures c.Some? ==> start <= c.value.start <= i < c.value.end <= |sizes|
    decreases |sizes| - start
  {
    if start == |sizes| || i < start then None
    else
      var end := EndFrom(sizes, start, start, 0, max);
      if sizes[end - 1].None? then None
      else if i < end then Some(Chunk(start, end, n))
      else
        var o := Send(start, end, true, n, collector);
        if o.fault.Some? then None else ChunkOf(sizes, end, max, n + |o.requests|, collector, i)
  }

  predicate Accepted(c: Chunk, collector: Collector, i: nat)
    requires c.start <= c.end
  {
    AcceptedBy(c.start, c.end, true, c.n, collector, i)
  }

  /** The answer is settled by where the batch stops. */
  predicate AnswerFits(answer: Retry.Answer, stop: Stop, count: nat)
    requires stop.Faults? ==> stop.chunk.start <= count
  {
    match stop
    case Ends => answer.Accepted? || (answer.Partial? && answer.retry == [])
    case Unencodable(_) => answer == Retry.Failed(false)
    case Faults(c, fault) =>
      if Retryable(fault) then answer.Partial? && answer.retry == Range(c.start, count)
      else answer == Retry.Failed(fault.Status?)
  }

  lemma {:induction false} AnswerOf(sizes: Sizes, start: nat, max: int, dropped: seq<int>, n: nat, collector: Collector)
    requires start <= |sizes|
    ensures AnswerFits(BatchFrom(sizes, start, max, dropped, n, collector).answer, StopOf(sizes, start, max, n, collector), |sizes|)
    decreases |sizes| - start
  {
    hide Send, EndFrom, Range;
    if start == |sizes| {
    } else {
      var end := EndFrom(sizes, start, start, 0, max);
      var o := Send(start, end, true, n, collector);
      if sizes[end - 1].Some? && o.fault.None? {
        AnswerOf(sizes, end, max, dropped + o.dropped, n + |o.requests|, collector);
      }
    }
  }

  /** An event of the batch landed exactly when the batch got to its chunk and the collector
      accepted a half that holds it. */
  lemma {:induction false} LandsExactly(sizes: Sizes, start: nat, max: int, dropped: seq<int>, n: nat, collector: Collector, i: nat)
    requires start <= i < |sizes|
    ensures var c := ChunkOf(sizes, start, max, n, collector, i);
      Landings(BatchFrom(sizes, start, max, dropped, n, collector).requests, i)
        == if c.Some? && Accepted(c.value, collector, i) then 1 else 0
    decreases |sizes| - start
  {
    hide Send, EndFrom, Landings, AcceptedBy;
    var end := EndFrom(sizes, start, start, 0, max);
    if sizes[end - 1].None? {
      NoLandings(i);
    } else {
      var o := Send(start, end, true, n, collector);
      EachOnce(start, end, true, n, collector, i);
      if i < end {
        AcceptedLands(start, end, true, n, collector, i);
      }
      if o.fault.None? {
        var rest := BatchFrom(sizes, end, max, dropped + o.dropped, n + |o.requests|, collector);
        LandingsAdd(o.requests, rest.requests, i);
        if i < end {
          LaterChunks(sizes, end, max, dropped + o.dropped, n + |o.requests|, collector, i);
        } else {
          LandsExactly(sizes, end, max, dropped + o.dropped, n + |o.requests|, collector, i);
        }
      }
    }
  }

  /** Later chunks carry no earlier event. */
  lemma {:induction false} LaterChunks(sizes: Sizes, start: nat, max: int, dropped: seq<int>, n: nat, collector: Collector, i: nat)
    requires i < start <= |sizes|
    ensures Landings(BatchFrom(sizes, start, max, dropped, n, collector).requests, i) == 0
    decreases |sizes| - start
  {
    hide Send, EndFrom, Landings;
    NoLandings(i);
    if start == |sizes| {
    } else {
      var end := EndFrom(sizes, start, start, 0, max);
      if sizes[end - 1].Some? {
        var o := Send(start, end, true, n, collector);
        EachOnce(start, end, true, n, collector, i);
        if o.fault.None? {
          LaterChunks(sizes, end, max, dropped + o.dropped, n + |o.requests|, collector, i);
          LandingsAdd(o.requests, BatchFrom(sizes, end, max, dropped + o.dropped, n + |o.requests|, collector).requests, i);
        }
      }
    }
  }

  /** The chunk a batch stops at is the chunk its events are sent in, and no later one is. */
  lemma {:induction false} ChunkAtStop(sizes: Sizes, start: nat, max: int, n: nat, collector: Collector, i: nat)
    requires start <= i < |sizes| && StopOf(sizes, start, max, n, collector).Faults?
    ensures var c := StopOf(sizes, start, max, n, collector).chunk;
      && (c.start <= i < c.end ==> ChunkOf(sizes, start, max, n, collector, i) == Some(c))
      && (c.end <= i ==> ChunkOf(sizes, start, max, n, collector, i).None?)
    decreases |sizes| - start
  {
    hide Send, EndFrom;
    var end := EndFrom(sizes, start, start, 0, max);
    var o := Send(start, end, true, n, collector);
    if o.fault.None? && end <= i {
      ChunkAtStop(sizes, end, max, n + |o.requests|, collector, i);
    }
  }

  // ---------------------------------------------------------------------------------------
  // What is sent again although it landed
  // ---------------------------------------------------------------------------------------

  /** The pipeline sends an event again that landed, after a partial answer, exactly when the
      event stands in the chunk that met a retryable fault, in a half that the collector accepted
      before it. */
  lemma RepeatsExactly(sizes: Sizes, max: int, collector: Collector, i: nat)
    requires i < |sizes|
    ensures var b, stop := BatchFrom(sizes, 0, max, [], 0, collector), StopOf(sizes, 0, max, 0, collector);
      (b.answer.Partial? && i in b.answer.retry && Landings(b.requests, i) == 1) <==>
        && stop.Faults? && Retryable(stop.fault)
        && stop.chunk.start <= i < stop.chunk.end && Accepted(stop.chunk, collector, i)
  {
    hide BatchFrom, StopOf, ChunkOf, Landings, AcceptedBy, Retryable;
    var stop := StopOf(sizes, 0, max, 0, collector);
    AnswerOf(sizes, 0, max, [], 0, collector);
    LandsExactly(sizes, 0, max, [], 0, collector, i);
    if stop.Faults? {
      ChunkAtStop(sizes, 0, max, 0, collector, i);
      if stop.chunk.start <= i {
        assert Range(stop.chunk.start, |sizes|)[i - stop.chunk.start] == i;
      }
    }
  }

  lemma {:induction false} LandingsAt(requests: seq<Request>, k: nat, i: int)
    requires k < |requests| && Carries(requests[k], i)
    ensures Landings(requests, i) >= 1
  {
    if k == |requests| - 1 {
    } else {
      LandingsAt(requests[..|requests| - 1], k, i);
    }
  }

  /** Two events, of which the first half lands and the second meets a full queue (code 9):
      the answer sends both again. */
  lemma LandedHalfIsSentAgain(collector: Collector)
    requires collector(0, 0, 2) == Answer(6) && collector(1, 0, 1) == Answer(0) && collector(2, 1, 2) == Answer(9)
    ensures BatchFrom([Some(1), Some(1)], 0, 1000, [], 0, collector).answer == Retry.Partial([0, 1], [])
    ensures Landings(BatchFrom([Some(1), Some(1)], 0, 1000, [], 0, collector).requests, 0) == 1
  {
    hide Send, EndFrom, Landings;
    var mid, x, y := Halves(0, 2, true, 0, collector);
    Settled(0, 1, true, 1, collector);
    Settled(1, 2, true, 2, collector);
    BothFit();
    assert Range(0, 2) == [0, 1];
    var r := [Request(0, 2, Halve), Request(0, 1, Landed), Request(1, 2, Fail(Hec(9)))];
    assert Send(0, 2, true, 0, collector).requests == r;
    LandingsAt(r, 1, 0);
    EachOnce(0, 2, true, 0, collector, 0);
  }

  lemma BothFit()
    ensures EndFrom([Some(1), Some(1)], 0, 0, 0, 1000) == 2
  {
    assert EndFrom([Some(1), Some(1)], 0, 1, 1, 1000) == EndFrom([Some(1), Some(1)], 0, 2, 2, 1000);
  }

  /** The first event that cannot be encoded ends the chunk it stands in, so a batch that holds one
      stops there or at a fault before it. */
  lemma {:induction false} StopsAtUnencodable(sizes: Sizes, start: nat, max: int, n: nat, collector: Collector)
    requires start <= |sizes|
    ensures var stop := StopOf(sizes, start, max, n, collector);
      && (stop.Unencodable? ==> sizes[stop.chunk.end - 1].None? && forall j :: start <= j < stop.chunk.end - 1 ==> sizes[j].Some?)
      && (stop.Ends? ==> forall j :: start <= j < |sizes| ==> sizes[j].Some?)
      && (stop.Faults? ==> forall j :: start <= j < stop.chunk.end ==> sizes[j].Some?)
    decreases |sizes| - start
  {
    hide Send, EndFrom;
    if start == |sizes| {
    } else {
      var end := EndFrom(sizes, start, start, 0, max);
      EndMeaning(sizes, start, start, 0, max);
      var o := Send(start, end, true, n, collector);
      if sizes[end - 1].Some? && o.fault.None? {
        StopsAtUnencodable(sizes, end, max, n + |o.requests|, collector);
      }
    }
  }

  /** A batch that holds an event that cannot be encoded is a plain error as a whole exactly when
      no fault that says more comes before it: none at all, or one without a status or code. */
  lemma EncodeFailure(sizes: Sizes, max: int, collector: Collector)
    requires exists j :: 0 <= j < |sizes| && sizes[j].None?
    ensures var stop := StopOf(sizes, 0, max, 0, collector);
      BatchFrom(sizes, 0, max, [], 0, collector).answer == Retry.Failed(false) <==>
        stop.Unencodable? || (stop.Faults? && (stop.fault == NoCode || stop.fault == Transport))
  {
    hide BatchFrom, StopOf;
    AnswerOf(sizes, 0, max, [], 0, collector);
    StopsAtUnencodable(sizes, 0, max, 0, collector);
  }

  /** A batch that fails as a whole is sent again, or given up for good, an event that landed
      included: exactly an event whose chunk the batch got to and that stands in a half the
      collector accepted. */
  lemma WholeBatchRepeats(sizes: Sizes, max: int, collector: Collector, i: nat, permanent: bool)
    requires i < |sizes|
    ensures var b, stop := BatchFrom(sizes, 0, max, [], 0, collector), StopOf(sizes, 0, max, 0, collector);
      var c := ChunkOf(sizes, 0, max, 0, collector, i);
      (b.answer == Retry.Failed(permanent) && Landings(b.requests, i) == 1) <==>
        && (if permanent then stop.Faults? && !Retryable(stop.fault) && stop.fault.Status?
            else stop.Unencodable? || (stop.Faults? && (stop.fault == NoCode || stop.fault == Transport)))
        && c.Some? && Accepted(c.value, collector, i)
  {
    hide BatchFrom, StopOf, ChunkOf, Landings, AcceptedBy;
    AnswerOf(sizes, 0, max, [], 0, collector);
    LandsExactly(sizes, 0, max, [], 0, collector, i);
  }

  /** Three events in chunks of one event's size, of which the third cannot be encoded: the first
      lands, and the answer sends the whole batch again. */
  lemma LandedBeforeUnencodable(collector: Collector)
    requires collector(0, 0, 1) == Answer(0)
    ensures var b := BatchFrom([Some(10), Some(10), None], 0, 10, [], 0, collector);
      b.answer == Retry.Failed(false) && Landings(b.requests, 0) == 1
  {
    hide Send, Landings;
    var sizes: Sizes := [Some(10), Some(10), None];
    assert EndFrom(sizes, 0, 1, 10, 10) == 1;
    assert EndFrom(sizes, 1, 2, 10, 10) == 3;
    Settled(0, 1, true, 0, collector);
    LandsExactly(sizes, 0, 10, [], 0, collector, 0);
  }
}
