/**
 drain/splunk/splunk.go, sendChunk: one chunk against a collector that may ask for it in
 halves. The collector is an oracle: its n-th answer may depend on n and on the events sent.
 */
module Splunk {
  import opened GoBytes

  /** What PostFor brings back. A negative code stands for a body that holds no readable code;
      a refusal with an empty body has none at all. Lost is any other error. */
  datatype Reply = Answer(code: int) | Refusal(status: int, body: Option<int>) | Lost

  datatype Fault = Status(status: int) | Hec(code: int) | NoCode | Transport

  datatype Reason = NoReason | TooLarge | HecCode(code: int)

  type Collector = (nat, nat, nat) -> Reply

  /** The Retryable() of the error, false where the error has none. */
  predicate Retryable(f: Fault) {
    match f
    case Hec(_) => true
    case Status(s) => s == 408 || s == 429 || s >= 500
    case NoCode => false
    case Transport => false
  }

  predicate RetryCode(code: int) {
    code in {9, 18, 19, 20, 23, 26, 27}
  }

  /** What one answer means for the chunk that was sent. */
  datatype Verdict = Landed | Drop(reason: Reason) | Halve | Fail(fault: Fault)

  function Judge(reply: Reply, size: nat, split: bool): Verdict {
    match reply
    case Lost => Fail(Transport)
    case Refusal(413, _) => if size <= 1 then Drop(TooLarge) else Halve
    case Refusal(status, None) => Fail(Status(status))
    case Refusal(status, Some(code)) => if code <= 0 then Fail(Status(status)) else ByCode(code, size, split)
    case Answer(code) => if code < 0 then Fail(NoCode) else if code == 0 then Landed else ByCode(code, size, split)
  }

  function ByCode(code: int, size: nat, split: bool): Verdict {
    if code == 24 || code == 25 then Landed
    else if code == 6 then if !split || size <= 1 then Drop(HecCode(6)) else Halve
    else if RetryCode(code) then Fail(Hec(code))
    else Drop(HecCode(code))
  }

  datatype Request = Request(lo: nat, hi: nat, verdict: Verdict)

  /** The requests made, and the fault or the refused indexes they came to. */
  datatype Outcome = Outcome(fault: Option<Fault>, dropped: seq<int>, reason: Reason, requests: seq<Request>)

  function Range(lo: nat, hi: nat): (r: seq<int>)
    requires lo <= hi
    ensures |r| == hi - lo && forall k :: 0 <= k < |r| ==> r[k] == lo + k
  {
    seq(hi - lo, k requires 0 <= k => lo + k)
  }

  function FirstReason(a: Reason, b: Reason): Reason {
    if a != NoReason then a else b
  }

  function Middle(lo: nat, hi: nat): (mid: nat)
    requires lo <= hi
    ensures lo <= mid <= hi && (hi - lo >= 2 ==> lo < mid < hi)
  {
    lo + (hi - lo) / 2
  }

  /** The events lo up to hi, from the n-th request on. */
  function Send(lo: nat, hi: nat, split: bool, n: nat, collector: Collector): (o: Outcome)
    requires lo <= hi
    ensures |o.requests| > 0
    decreases hi - lo
  {
    var q := Request(lo, hi, Judge(collector(n, lo, hi), hi - lo, split));
    if !q.verdict.Halve? then Alone(q)
    else
      var a := Send(lo, Middle(lo, hi), split, n + 1, collector);
      Both(q, a, Send(Middle(lo, hi), hi, split, n + 1 + |a.requests|, collector))
  }

  /** A request that settles its events. */
  function Alone(q: Request): (o: Outcome)
    requires q.lo <= q.hi && !q.verdict.Halve?
    ensures |o.requests| == 1
  {
    match q.verdict
    case Drop(reason) => Outcome(None, Range(q.lo, q.hi), reason, [q])
    case Fail(fault) => Outcome(Some(fault), [], NoReason, [q])
    case _ => Outcome(None, [], NoReason, [q])
  }

  /** A fault in the first half leaves the second unsent, and a fault in either forgets the drops. */
  function Both(q: Request, a: Outcome, b: Outcome): (o: Outcome)
    ensures |o.requests| > 0
  {
    if a.fault.Some? then Outcome(a.fault, [], NoReason, [q] + a.requests)
    else if b.fault.Some? then Outcome(b.fault, [], NoReason, [q] + a.requests + b.requests)
    else Outcome(None, a.dropped + b.dropped, FirstReason(a.reason, b.reason), [q] + a.requests + b.requests)
  }

  lemma Settled(lo: nat, hi: nat, split: bool, n: nat, collector: Collector)
    requires lo <= hi && !Judge(collector(n, lo, hi), hi - lo, split).Halve?
    ensures Send(lo, hi, split, n, collector) == Alone(Request(lo, hi, Judge(collector(n, lo, hi), hi - lo, split)))
  {
  }

  /** The two halves of a chunk that the collector asks for in halves. */
  lemma Halves(lo: nat, hi: nat, split: bool, n: nat, collector: Collector) returns (mid: nat, a: Outcome, b: Outcome)
    requires lo <= hi && Judge(collector(n, lo, hi), hi - lo, split).Halve?
    ensures lo < mid < hi && mid == Middle(lo, hi)
    ensures a == Send(lo, mid, split, n + 1, collector)
    ensures b == Send(mid, hi, split, n + 1 + |a.requests|, collector)
    ensures Send(lo, hi, split, n, collector) == Both(Request(lo, hi, Halve), a, b)
  {
    mid := Middle(lo, hi);
    a := Send(lo, mid, split, n + 1, collector);
    b := Send(mid, hi, split, n + 1 + |a.requests|, collector);
  }

  // ---------------------------------------------------------------------------------------
  // Every event lands once or is dropped once
  // ---------------------------------------------------------------------------------------

  predicate Carries(q: Request, i: int) {
    q.verdict.Landed? && q.lo <= i < q.hi
  }

  /** How many accepted requests carried the event. */
  function Landings(requests: seq<Request>, i: int): nat {
    if requests == [] then 0
    else Landings(requests[..|requests| - 1], i) + if Carries(requests[|requests| - 1], i) then 1 else 0
  }

  lemma {:induction false} LandingsAdd(a: seq<Request>, b: seq<Request>, i: int)
    ensures Landings(a + b, i) == Landings(a, i) + Landings(b, i)
  {
    if b == [] {
      assert a + b == a;
    } else {
      LandingsAdd(a, b[..|b| - 1], i);
      assert (a + b)[..|a + b| - 1] == a + b[..|b| - 1];
    }
  }

  predicate Ascending(s: seq<int>, lo: int, hi: int) {
    && (forall k :: 0 <= k < |s| ==> lo <= s[k] < hi)
    && (forall j, k :: 0 <= j < k < |s| ==> s[j] < s[k])
  }

  lemma {:induction false} AscendingLength(s: seq<int>, lo: int, hi: int)
    requires Ascending(s, lo, hi) && lo <= hi
    ensures |s| <= hi - lo
    decreases |s|
  {
    if s == [] {
    } else {
      AscendingLength(s[..|s| - 1], lo, s[|s| - 1]);
    }
  }

  /** Whatever the collector answers: the dropped list is in order and within the chunk; when
      no fault stops it, each event of the chunk is carried by one accepted request or dropped,
      never both and never twice; when one does, still no event lands twice. */
  ghost predicate Settles(o: Outcome, lo: nat, hi: nat, i: int) {
    && Ascending(o.dropped, lo, hi)
    && Landings(o.requests, i) <= (if lo <= i < hi then 1 else 0)
    && (o.fault.None? && lo <= i < hi ==> Landings(o.requests, i) == if i in o.dropped then 0 else 1)
  }

  lemma {:induction false} EachOnce(lo: nat, hi: nat, split: bool, n: nat, collector: Collector, i: int)
    requires lo <= hi
    ensures Settles(Send(lo, hi, split, n, collector), lo, hi, i)
    decreases hi - lo
  {
    hide Judge, Settles, Ascending, Landings, Both, Send, Alone;
    if Judge(collector(n, lo, hi), hi - lo, split).Halve? {
      var mid, a, b := Halves(lo, hi, split, n, collector);
      EachOnce(lo, mid, split, n + 1, collector, i);
      EachOnce(mid, hi, split, n + 1 + |a.requests|, collector, i);
      SettlesBoth(lo, mid, hi, a, b, i);
    } else {
      Settled(lo, hi, split, n, collector);
      SettlesOne(Request(lo, hi, Judge(collector(n, lo, hi), hi - lo, split)), i);
    }
  }

  lemma SettlesOne(q: Request, i: int)
    requires q.lo <= q.hi && !q.verdict.Halve?
    ensures Settles(Alone(q), q.lo, q.hi, i)
  {
    assert [q][..0] == [];
    if q.lo <= i < q.hi {
      assert Range(q.lo, q.hi)[i - q.lo] == i;
    }
  }

  lemma SettlesBoth(lo: nat, mid: nat, hi: nat, a: Outcome, b: Outcome, i: int)
    requires lo < mid < hi && Settles(a, lo, mid, i) && Settles(b, mid, hi, i)
    ensures Settles(Both(Request(lo, hi, Halve), a, b), lo, hi, i)
  {
    var here := [Request(lo, hi, Halve)];
    assert here[..0] == [];
    LandingsAdd(here, a.requests, i);
    LandingsAdd(here + a.requests, b.requests, i);
    hide Landings;
    assert i in a.dropped ==> lo <= i < mid;
    assert i in b.dropped ==> mid <= i < hi;
  }

  lemma DropsFit(lo: nat, hi: nat, split: bool, n: nat, collector: Collector)
    requires lo <= hi
    ensures |Send(lo, hi, split, n, collector).dropped| <= hi - lo
  {
    hide Send, Landings, Ascending;
    EachOnce(lo, hi, split, n, collector, lo);
    AscendingLength(Send(lo, hi, split, n, collector).dropped, lo, hi);
  }

  /** Halving costs at most one request fewer than twice the events. */
  lemma {:induction false} RequestBound(lo: nat, hi: nat, split: bool, n: nat, collector: Collector)
    requires lo < hi
    ensures |Send(lo, hi, split, n, collector).requests| <= 2 * (hi - lo) - 1
    decreases hi - lo
  {
    hide Judge, Send, Alone;
    if Judge(collector(n, lo, hi), hi - lo, split).Halve? {
      var mid, a, b := Halves(lo, hi, split, n, collector);
      RequestBound(lo, mid, split, n + 1, collector);
      RequestBound(mid, hi, split, n + 1 + |a.requests|, collector);
    } else {
      Settled(lo, hi, split, n, collector);
    }
  }

  // ---------------------------------------------------------------------------------------
  // Bisection
  // ---------------------------------------------------------------------------------------

  /** The collector refuses with code 6 the chunks that hold a malformed event, and takes the rest. */
  ghost predicate Strict(collector: Collector, bad: set<nat>) {
    forall n: nat, lo: nat, hi: nat {:trigger collector(n, lo, hi)} ::
      if exists i :: i in bad && lo <= i < hi
      then collector(n, lo, hi) == Answer(6) || exists s :: s != 413 && collector(n, lo, hi) == Refusal(s, Some(6))
      else collector(n, lo, hi) == Answer(0)
  }

  /** Then exactly the malformed events are dropped, and every other one lands once. */
  lemma {:induction false} Bisects(lo: nat, hi: nat, n: nat, collector: Collector, bad: set<nat>, i: nat)
    requires lo < hi && Strict(collector, bad)
    ensures Send(lo, hi, true, n, collector).fault.None?
    ensures i in Send(lo, hi, true, n, collector).dropped <==> i in bad && lo <= i < hi
    ensures lo <= i < hi ==> Landings(Send(lo, hi, true, n, collector).requests, i) == if i in bad then 0 else 1
    decreases hi - lo
  {
    hide Landings, Send, Judge, Strict, Ascending;
    EachOnce(lo, hi, true, n, collector, i);
    StrictVerdict(collector, bad, n, lo, hi);
    if Judge(collector(n, lo, hi), hi - lo, true).Halve? {
      var mid, a, b := Halves(lo, hi, true, n, collector);
      Bisects(lo, mid, n + 1, collector, bad, i);
      Bisects(mid, hi, n + 1 + |a.requests|, collector, bad, i);
    } else {
      Settled(lo, hi, true, n, collector);
      assert hi - lo == 1 ==> Range(lo, hi) == [lo];
    }
  }

  lemma StrictVerdict(collector: Collector, bad: set<nat>, n: nat, lo: nat, hi: nat)
    requires lo < hi && Strict(collector, bad)
    ensures Judge(collector(n, lo, hi), hi - lo, true) ==
      if !exists i :: i in bad && lo <= i < hi then Landed else if hi - lo == 1 then Drop(HecCode(6)) else Halve
    ensures hi - lo == 1 && (exists i :: i in bad && lo <= i < hi) ==> lo in bad
  {
  }
}
