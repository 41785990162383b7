/**
 drain/splunk/splunk.go, SendBatch, with ChunkEnd of internal/share/share.go: what becomes of
 each event of a batch, and what the pipeline's dropPartial makes of the answer.
 */
module SplunkSend {
  import opened GoBytes
  import opened Splunk
  import opened SplunkSlices
  import Retry

  /** The encoded size of each event, None where it cannot be encoded. */
  type Sizes = seq<Option<nat>>

  function Total(sizes: Sizes, from: nat, to: nat): nat
    requires from <= to <= |sizes| && forall i :: from <= i < to ==> sizes[i].Some?
  {
    if from == to then 0 else Total(sizes, from, to - 1) + sizes[to - 1].value
  }

  /** ChunkEnd's loop, at i with this many bytes taken. */
  function EndFrom(sizes: Sizes, start: nat, i: nat, taken: nat, max: int): (end: nat)
    requires start <= i <= |sizes| && (i == start ==> i < |sizes|)
    ensures start < end <= |sizes| && i <= end
    decreases |sizes| - i
  {
    if i == |sizes| then i
    else if sizes[i].None? then i + 1
    else if i > start && taken + sizes[i].value > max then i
    else EndFrom(sizes, start, i + 1, taken + sizes[i].value, max)
  }

  method ChunkEnd(sizes: Sizes, start: nat, max: int) returns (end: nat)
    requires start < |sizes|
    ensures end == EndFrom(sizes, start, start, 0, max)
  {
    var taken: nat := 0;
    for i := start to |sizes|
      invariant EndFrom(sizes, start, i, taken, max) == EndFrom(sizes, start, start, 0, max)
    {
      if sizes[i].None? {
        return i + 1;
      }
      if i > start && taken + sizes[i].value > max {
        return i;
      }
      taken := taken + sizes[i].value;
    }
    return |sizes|;
  }

  /** A chunk ends with the first event that cannot be encoded; otherwise it keeps to the cap
      unless it is one event, and the next event would not have fitted. */
  lemma {:induction false} EndMeaning(sizes: Sizes, start: nat, i: nat, taken: nat, max: int)
    requires start <= i <= |sizes| && (i == start ==> i < |sizes|)
    requires (forall j :: start <= j < i ==> sizes[j].Some?) && taken == Total(sizes, start, i)
    requires i > start + 1 ==> taken <= max
    ensures var end := EndFrom(sizes, start, i, taken, max);
      && (forall j :: start <= j < end - 1 ==> sizes[j].Some?)
      && (sizes[end - 1].Some? ==>
            && (end == start + 1 || Total(sizes, start, end) <= max)
            && (end < |sizes| ==> sizes[end].Some? && Total(sizes, start, end + 1) > max))
    decreases |sizes| - i
  {
    if i < |sizes| && sizes[i].Some? && !(i > start && taken + sizes[i].value > max) {
      EndMeaning(sizes, start, i + 1, taken + sizes[i].value, max);
    }
  }

  // ---------------------------------------------------------------------------------------
  // SendBatch
  // ---------------------------------------------------------------------------------------

  datatype Batch = Batch(answer: Retry.Answer, requests: seq<Request>)

  /** The answer to the pipeline when a chunk that begins at start meets a fault. */
  function OnFault(fault: Fault, start: nat, count: nat, dropped: seq<int>): Retry.Answer
    requires start <= count
  {
    if Retryable(fault) then Retry.Partial(Range(start, count), dropped) else Retry.Failed(fault.Status?)
  }

  function AtEnd(dropped: seq<int>): Retry.Answer {
    if dropped == [] then Retry.Accepted else Retry.Partial([], dropped)
  }

  /** From the event at start on, with these indexes already dropped and n requests made. */
  function BatchFrom(sizes: Sizes, start: nat, max: int, dropped: seq<int>, n: nat, collector: Collector): Batch
    requires start <= |sizes|
    decreases |sizes| - start
  {
    if start == |sizes| then Batch(AtEnd(dropped), [])
    else
      var end := EndFrom(sizes, start, start, 0, max);
      if sizes[end - 1].None? then Batch(Retry.Failed(false), [])
      else
        var o := Send(start, end, true, n, collector);
        if o.fault.Some? then Batch(OnFault(o.fault.value, start, |sizes|, dropped), o.requests)
        else
          var rest := BatchFrom(sizes, end, max, dropped + o.dropped, n + |o.requests|, collector);
          Batch(rest.answer, o.requests + rest.requests)
  }

  method SendBatch(sizes: Sizes, max: int, collector: Collector) returns (answer: Retry.Answer)
    ensures answer == BatchFrom(sizes, 0, max, [], 0, collector).answer
  {
    hide Send, EndFrom, OnFault;
    var dropped: seq<int> := [];
    var start, n := 0, 0;
    while start < |sizes|
      invariant start <= |sizes|
      invariant BatchFrom(sizes, start, max, dropped, n, collector).answer == BatchFrom(sizes, 0, max, [], 0, collector).answer
      decreases |sizes| - start
    {
      var end := ChunkEnd(sizes, start, max);
      if sizes[end - 1].None? {
        return Retry.Failed(false);
      }
      var indexes := new int[end - start](k => start + k);
      var fault, d, reason, calls := SendChunk(indexes, start, start, end, true, n, collector);
      if fault.Some? {
        return OnFault(fault.value, start, |sizes|, dropped);
      }
      dropped := dropped + Contents(d);
      n := n + calls;
      start := end;
    }
    answer := AtEnd(dropped);
  }

  // ---------------------------------------------------------------------------------------
  // The fate of each event
  // ---------------------------------------------------------------------------------------

  /** What the answer makes of an event that came to this many accepted requests. */
  predicate FateFits(answer: Retry.Answer, i: nat, landings: nat) {
    && landings <= 1
    && (answer.Accepted? ==> landings == 1)
    && (answer.Partial? && Retry.FateOf(answer, i) == Retry.Sent ==> landings == 1)
    && (answer.Partial? && Retry.FateOf(answer, i) == Retry.Refused ==> landings == 0)
  }

  /** The answer says of an event settled before what was settled. */
  predicate KeepsDrop(answer: Retry.Answer, i: nat, drop: bool) {
    && (answer.Accepted? ==> !drop)
    && (answer.Partial? ==> i !in answer.retry && (i in answer.dropped <==> drop))
  }

  ghost predicate Below(s: seq<int>, n: int) {
    forall k :: 0 <= k < |s| ==> 0 <= s[k] < n
  }

  /** The events before start are settled already: their drops stand in the answer, and no
      later request carries them. The others are settled by the rest of the batch. */
  lemma {:induction false} FateFrom(sizes: Sizes, start: nat, max: int, dropped: seq<int>, n: nat, collector: Collector, i: nat)
    requires start <= |sizes| && Below(dropped, start) && i < |sizes|
    ensures var b := BatchFrom(sizes, start, max, dropped, n, collector);
      && (i < start ==> Landings(b.requests, i) == 0 && KeepsDrop(b.answer, i, i in dropped))
      && (i >= start ==> FateFits(b.answer, i, Landings(b.requests, i)))
    decreases |sizes| - start
  {
    hide Send, EndFrom, Landings;
    if start < |sizes| {
      var end := EndFrom(sizes, start, start, 0, max);
      if sizes[end - 1].Some? {
        var o := Send(start, end, true, n, collector);
        EachOnce(start, end, true, n, collector, i);
        if o.fault.None? {
          FateFrom(sizes, end, max, dropped + o.dropped, n + |o.requests|, collector, i);
          LandingsAdd(o.requests, BatchFrom(sizes, end, max, dropped + o.dropped, n + |o.requests|, collector).requests, i);
        } else if i >= start {
          assert Range(start, |sizes|)[i - start] == i;
        }
      } else {
        NoLandings(i);
      }
    } else {
      NoLandings(i);
    }
  }

  lemma NoLandings(i: int)
    ensures Landings([], i) == 0
  {
  }

  /** No event lands twice in one call. After nil every event landed. After a partial answer
      an event the pipeline counts as sent landed once, and one it drops did not land. */
  lemma FateOfEvent(sizes: Sizes, max: int, collector: Collector, i: nat)
    requires i < |sizes|
    ensures var b := BatchFrom(sizes, 0, max, [], 0, collector);
      var landings := Landings(b.requests, i);
      && landings <= 1
      && (b.answer.Accepted? ==> landings == 1)
      && (b.answer.Partial? && i !in b.answer.dropped && i !in b.answer.retry ==> landings == 1)
      && (b.answer.Partial? && i in b.answer.dropped ==> landings == 0)
  {
    hide BatchFrom, Landings;
    FateFrom(sizes, 0, max, [], 0, collector, i);
  }

  /** The collector of Bisects leaves nothing to send again, and drops the malformed events. */
  lemma {:induction false} StrictBatch(sizes: Sizes, start: nat, max: int, dropped: seq<int>, n: nat, collector: Collector,
                                       bad: set<nat>, i: nat)
    requires start <= |sizes| && Strict(collector, bad) && forall j :: start <= j < |sizes| ==> sizes[j].Some?
    ensures var a := BatchFrom(sizes, start, max, dropped, n, collector).answer;
      && (a.Accepted? || (a.Partial? && a.retry == []))
      && ((a.Partial? && i in a.dropped) <==> i in dropped || (i in bad && start <= i < |sizes|))
    decreases |sizes| - start
  {
    hide Send, EndFrom, Strict;
    if start == |sizes| {
    } else {
      var end := EndFrom(sizes, start, start, 0, max);
      var o := Send(start, end, true, n, collector);
      Bisects(start, end, n, collector, bad, i);
      StrictBatch(sizes, end, max, dropped + o.dropped, n + |o.requests|, collector, bad, i);
    }
  }
}
