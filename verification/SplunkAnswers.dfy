/**
 drain/splunk/splunk.go with pipeline/httpdrain/httpdrain.go: the answer to the pipeline, in terms
 of the status and the code that the collector replied.
 */
module SplunkAnswers {
  import opened GoBytes
  import opened Splunk
  import opened SplunkSend
  import opened SplunkRepeats
  import Retry

  // ---------------------------------------------------------------------------------------
  // The replies
  // ---------------------------------------------------------------------------------------

  /** The HEC code of a reply that has one: with any status but 413, and above zero when refused. */
  function CodeOf(reply: Reply): Option<int> {
    if reply.Answer? && reply.code >= 0 then Some(reply.code)
    else if reply.Refusal? && reply.status != 413 && reply.body.Some? && reply.body.value > 0 then reply.body
    else None
  }

  /** A status other than 413, and no readable code. */
  predicate OnlyStatus(reply: Reply) {
    reply.Refusal? && reply.status != 413 && (reply.body.None? || reply.body.value <= 0)
  }

  predicate Busy(reply: Reply) {
    || (OnlyStatus(reply) && (reply.status == 408 || reply.status == 429 || reply.status >= 500))
    || CodeOf(reply) in {Some(9), Some(18), Some(19), Some(20), Some(23), Some(26), Some(27)}
  }

  predicate Refuses(reply: Reply) {
    OnlyStatus(reply) && reply.status != 408 && reply.status != 429 && reply.status < 500
  }

  /** A request that was lost, or an answer without a readable code. */
  predicate Silent(reply: Reply) {
    reply.Lost? || (reply.Answer? && reply.code < 0)
  }

  predicate Faulty(reply: Reply) {
    Busy(reply) || Refuses(reply) || Silent(reply)
  }

  /** Codes 0, 24 and 25 land the chunk. */
  predicate Takes(reply: Reply) {
    CodeOf(reply) in {Some(0), Some(24), Some(25)}
  }

  /** 413 and code 6 ask for halves. */
  predicate AsksForHalves(reply: Reply) {
    (reply.Refusal? && reply.status == 413) || CodeOf(reply) == Some(6)
  }

  /** What one reply does to the events of its request. */
  lemma ReplySettles(lo: nat, hi: nat, n: nat, collector: Collector, i: nat)
    requires lo < hi
    ensures var reply, o := collector(n, lo, hi), Send(lo, hi, true, n, collector);
      && (Faulty(reply) ==> o.fault.Some? && o.dropped == [] && Landings(o.requests, i) == 0)
      && (Takes(reply) ==> o.fault.None? && o.dropped == [] && Landings(o.requests, i) == if lo <= i < hi then 1 else 0)
      && (AsksForHalves(reply) && hi - lo >= 2 ==>
            o.requests[0] == Request(lo, hi, Halve) && |o.requests| >= 2)
      && (!Faulty(reply) && !Takes(reply) && !(AsksForHalves(reply) && hi - lo >= 2) ==>
            o.fault.None? && o.dropped == Range(lo, hi) && Landings(o.requests, i) == 0)
  {
    hide Send, Landings, Range;
    var reply := collector(n, lo, hi);
    JudgeSays(reply, hi - lo);
    hide Judge, Faulty, Takes, AsksForHalves;
    if Judge(reply, hi - lo, true).Halve? {
      var mid, a, b := Halves(lo, hi, true, n, collector);
    } else {
      Settled(lo, hi, true, n, collector);
      LandingsAlone(Request(lo, hi, Judge(reply, hi - lo, true)), i);
    }
  }

  /** The verdict, read off the reply. */
  lemma JudgeSays(reply: Reply, size: nat)
    ensures var v := Judge(reply, size, true);
      && (Faulty(reply) <==> v.Fail?)
      && (Takes(reply) <==> v.Landed?)
      && (AsksForHalves(reply) && size >= 2 <==> v.Halve?)
      && (v.Fail? ==>
            && (Busy(reply) <==> Retryable(v.fault))
            && (Refuses(reply) <==> v.fault.Status? && !Retryable(v.fault))
            && (Silent(reply) <==> v.fault == NoCode || v.fault == Transport))
  {
  }

  // ---------------------------------------------------------------------------------------
  // The reason of a drop
  // ---------------------------------------------------------------------------------------

  /** The reason that the first of the requests to drop its events was dropped for. */
  function FirstDrop(requests: seq<Request>): Reason {
    if requests == [] then NoReason
    else if requests[0].verdict.Drop? then requests[0].verdict.reason
    else FirstDrop(requests[1..])
  }

  lemma {:induction false} FirstDropOf(a: seq<Request>, b: seq<Request>)
    requires forall k :: 0 <= k < |a| && a[k].verdict.Drop? ==> a[k].verdict.reason != NoReason
    ensures FirstDrop(a + b) == if FirstDrop(a) != NoReason then FirstDrop(a) else FirstDrop(b)
  {
    if a == [] {
      assert a + b == b;
    } else {
      FirstDropOf(a[1..], b);
      assert (a + b)[1..] == a[1..] + b;
    }
  }

  /** A single event that is too large is dropped for its size, and any other drop names the code. */
  lemma DropSays(reply: Reply, size: nat, split: bool)
    requires Judge(reply, size, split).Drop?
    ensures var reason := Judge(reply, size, split).reason;
      if reply.Refusal? && reply.status == 413 then size <= 1 && reason == TooLarge
      else CodeOf(reply).Some? && reason == HecCode(CodeOf(reply).value)
  {
  }

  /** A chunk without a fault carries the reason of its first drop. */
  lemma {:induction false} ReasonIsFirst(lo: nat, hi: nat, split: bool, n: nat, collector: Collector)
    requires lo <= hi
    ensures var o := Send(lo, hi, split, n, collector);
      && (o.fault.None? ==> o.reason == FirstDrop(o.requests))
      && (forall k :: 0 <= k < |o.requests| && o.requests[k].verdict.Drop? ==> o.requests[k].verdict.reason != NoReason)
    decreases hi - lo
  {
    hide Judge, Send, FirstDrop;
    if Judge(collector(n, lo, hi), hi - lo, split).Halve? {
      var mid, a, b := Halves(lo, hi, split, n, collector);
      ReasonIsFirst(lo, mid, split, n + 1, collector);
      ReasonIsFirst(mid, hi, split, n + 1 + |a.requests|, collector);
      var q := Request(lo, hi, Halve);
      FirstDropOf([q], a.requests);
      FirstDropOf([q] + a.requests, b.requests);
      AloneDrop(q);
    } else {
      Settled(lo, hi, split, n, collector);
      var q := Request(lo, hi, Judge(collector(n, lo, hi), hi - lo, split));
      AloneDrop(q);
      if q.verdict.Drop? {
        DropSays(collector(n, lo, hi), hi - lo, split);
      }
    }
  }

  lemma AloneDrop(q: Request)
    ensures FirstDrop([q]) == if q.verdict.Drop? then q.verdict.reason else NoReason
  {
    assert [q][1..] == [];
    assert FirstDrop([]) == NoReason;
  }

  // ---------------------------------------------------------------------------------------
  // The first faulty reply of a chunk and of a batch
  // ---------------------------------------------------------------------------------------

  /** The reply to the last request that was made for the chunk. */
  function LastReply(o: Outcome, n: nat, collector: Collector): Reply
    requires |o.requests| > 0
  {
    var q := o.requests[|o.requests| - 1];
    collector(n + |o.requests| - 1, q.lo, q.hi)
  }

  /** Every request carries the verdict on its reply. */
  predicate Judged(o: Outcome, n: nat, collector: Collector) {
    forall k :: 0 <= k < |o.requests| ==>
      var q := o.requests[k];
      q.lo <= q.hi && q.verdict == Judge(collector(n + k, q.lo, q.hi), q.hi - q.lo, true)
  }

  lemma {:induction false} RequestsJudged(lo: nat, hi: nat, n: nat, collector: Collector)
    requires lo <= hi
    ensures var o := Send(lo, hi, true, n, collector);
      && Judged(o, n, collector)
      && (forall k :: 0 <= k < |o.requests| - 1 ==> !o.requests[k].verdict.Fail?)
      && (o.fault.Some? <==> o.requests[|o.requests| - 1].verdict.Fail?)
      && (o.fault.Some? ==> o.requests[|o.requests| - 1].verdict == Fail(o.fault.value))
    decreases hi - lo
  {
    hide Judge, Send;
    if Judge(collector(n, lo, hi), hi - lo, true).Halve? {
      var mid, a, b := Halves(lo, hi, true, n, collector);
      RequestsJudged(lo, mid, n + 1, collector);
      RequestsJudged(mid, hi, n + 1 + |a.requests|, collector);
      BothJudged(Request(lo, hi, Halve), a, b, n, collector);
    } else {
      Settled(lo, hi, true, n, collector);
    }
  }

  lemma BothJudged(q: Request, a: Outcome, b: Outcome, n: nat, collector: Collector)
    requires q.lo <= q.hi && q.verdict.Halve? && q.verdict == Judge(collector(n, q.lo, q.hi), q.hi - q.lo, true)
    requires |a.requests| > 0 && |b.requests| > 0
    requires Judged(a, n + 1, collector) && Judged(b, n + 1 + |a.requests|, collector)
    requires forall k :: 0 <= k < |a.requests| - 1 ==> !a.requests[k].verdict.Fail?
    requires forall k :: 0 <= k < |b.requests| - 1 ==> !b.requests[k].verdict.Fail?
    requires a.fault.Some? <==> a.requests[|a.requests| - 1].verdict.Fail?
    requires b.fault.Some? <==> b.requests[|b.requests| - 1].verdict.Fail?
    requires a.fault.Some? ==> a.requests[|a.requests| - 1].verdict == Fail(a.fault.value)
    requires b.fault.Some? ==> b.requests[|b.requests| - 1].verdict == Fail(b.fault.value)
    ensures var o := Both(q, a, b);
      && Judged(o, n, collector)
      && (forall k :: 0 <= k < |o.requests| - 1 ==> !o.requests[k].verdict.Fail?)
      && (o.fault.Some? <==> o.requests[|o.requests| - 1].verdict.Fail?)
      && (o.fault.Some? ==> o.requests[|o.requests| - 1].verdict == Fail(o.fault.value))
  {
    hide Judge;
    var o, na := Both(q, a, b), |a.requests|;
    forall k | 0 <= k < |o.requests|
      ensures o.requests[k] == if k == 0 then q else if k <= na then a.requests[k - 1] else b.requests[k - 1 - na]
    {
    }
    forall k | 0 <= k < |o.requests|
      ensures var x := o.requests[k];
        x.lo <= x.hi && x.verdict == Judge(collector(n + k, x.lo, x.hi), x.hi - x.lo, true)
    {
      if 0 < k <= na {
        assert n + k == n + 1 + (k - 1);
      } else if na < k {
        assert n + k == n + 1 + na + (k - 1 - na);
      }
    }
  }

  /** A chunk faults exactly when its last reply is a faulty one; the ones before are not. */
  lemma FaultIsReply(lo: nat, hi: nat, n: nat, collector: Collector)
    requires lo <= hi
    ensures var o := Send(lo, hi, true, n, collector);
      && (o.fault.Some? <==> Faulty(LastReply(o, n, collector)))
      && (forall k :: 0 <= k < |o.requests| - 1 ==> !Faulty(collector(n + k, o.requests[k].lo, o.requests[k].hi)))
      && (o.fault.Some? ==>
            && (Busy(LastReply(o, n, collector)) <==> Retryable(o.fault.value))
            && (Refuses(LastReply(o, n, collector)) <==> o.fault.value.Status? && !Retryable(o.fault.value))
            && (Silent(LastReply(o, n, collector)) <==> o.fault.value == NoCode || o.fault.value == Transport))
  {
    hide Judge, Send, Busy, Refuses, Silent, Retryable;
    RequestsJudged(lo, hi, n, collector);
    var o := Send(lo, hi, true, n, collector);
    forall k | 0 <= k < |o.requests|
      ensures Faulty(collector(n + k, o.requests[k].lo, o.requests[k].hi)) <==> o.requests[k].verdict.Fail?
    {
      JudgeSays(collector(n + k, o.requests[k].lo, o.requests[k].hi), o.requests[k].hi - o.requests[k].lo);
    }
    var q := o.requests[|o.requests| - 1];
    JudgeSays(LastReply(o, n, collector), q.hi - q.lo);
  }

  /** The first faulty reply of a batch, and the indexes dropped in the chunks before it; or all that
      were dropped. */
  datatype Found = NoFault(all: seq<int>) | CannotEncode | FirstFaulty(start: nat, reply: Reply, dropped: seq<int>)

  function FindFault(sizes: Sizes, start: nat, max: int, dropped: seq<int>, n: nat, collector: Collector): (f: Found)
    requires start <= |sizes|
    ensures f.FirstFaulty? ==> start <= f.start < |sizes| && Faulty(f.reply)
    decreases |sizes| - start
  {
    if start == |sizes| then NoFault(dropped)
    else
      var end := EndFrom(sizes, start, start, 0, max);
      if sizes[end - 1].None? then CannotEncode
      else
        var o := Send(start, end, true, n, collector);
        FaultIsReply(start, end, n, collector);
        if o.fault.Some? then FirstFaulty(start, LastReply(o, n, collector), dropped)
        else FindFault(sizes, end, max, dropped + o.dropped, n + |o.requests|, collector)
  }

  /** The answer, from the first faulty reply of the batch. Without one it is nil, or names what was
      dropped. Status 408, 429 or 500 and up, and codes
      9, 18, 19, 20, 23, 26 and 27, send that chunk and all later events again and keep the earlier
      drops. Another status fails the batch for good. A lost request, an answer without a code and an
      event that cannot be encoded fail it as a whole, to be sent again. */
  lemma {:induction false} AnswerFromReply(sizes: Sizes, start: nat, max: int, dropped: seq<int>, n: nat, collector: Collector)
    requires start <= |sizes|
    ensures var answer, f := BatchFrom(sizes, start, max, dropped, n, collector).answer, FindFault(sizes, start, max, dropped, n, collector);
      match f
      case NoFault(all) => answer == if all == [] then Retry.Accepted else Retry.Partial([], all)
      case CannotEncode => answer == Retry.Failed(false)
      case FirstFaulty(from, reply, earlier) =>
        && (Busy(reply) ==> answer == Retry.Partial(Range(from, |sizes|), earlier))
        && (Refuses(reply) ==> answer == Retry.Failed(true))
        && (Silent(reply) ==> answer == Retry.Failed(false))
    decreases |sizes| - start
  {
    hide Send, EndFrom, Range, Busy, Refuses, Silent;
    if start == |sizes| {
    } else {
      var end := EndFrom(sizes, start, start, 0, max);
      var o := Send(start, end, true, n, collector);
      FaultIsReply(start, end, n, collector);
      if sizes[end - 1].Some? && o.fault.None? {
        AnswerFromReply(sizes, end, max, dropped + o.dropped, n + |o.requests|, collector);
      }
    }
  }

  /** Two events, and a first request that gets 503 with an empty body: both are sent again. */
  lemma UnavailableRetries(collector: Collector)
    requires collector(0, 0, 2) == Refusal(503, None)
    ensures BatchFrom([Some(1), Some(1)], 0, 1000, [], 0, collector).answer == Retry.Partial([0, 1], [])
  {
    hide Send, EndFrom;
    BothFit();
    Settled(0, 2, true, 0, collector);
    assert Range(0, 2) == [0, 1];
  }
}
