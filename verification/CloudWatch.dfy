/**
 drain/cloudwatch/cloudwatch.go: sorting a batch, splitting it under three limits, putting the
 chunks one by one, and mapping rejected ranges back to batch indexes.
 */
module CloudWatch {
  import opened GoBytes

  const MAX_EVENTS := 10000
  const MAX_BYTES := 1048576
  const PER_EVENT_OVERHEAD := 26
  const MAX_SPAN := 86_400_000

  datatype Entry = Entry(index: nat, timestamp: int, message: string)

  function Size(e: Entry): nat {
    |e.message| + PER_EVENT_OVERHEAD
  }

  // ---------------------------------------------------------------------------------------
  // sort.SliceStable by timestamp
  // ---------------------------------------------------------------------------------------

  /** e goes after every entry that is no later. */
  function Insert(s: seq<Entry>, e: Entry): (r: seq<Entry>)
    ensures |r| == |s| + 1
  {
    if s == [] || s[|s| - 1].timestamp <= e.timestamp then s + [e]
    else Insert(s[..|s| - 1], e) + [s[|s| - 1]]
  }

  function StableSort(s: seq<Entry>): (r: seq<Entry>)
    ensures |r| == |s|
  {
    if s == [] then [] else Insert(StableSort(s[..|s| - 1]), s[|s| - 1])
  }

  /** By timestamp, and entries of one timestamp in batch order. */
  ghost predicate Ordered(s: seq<Entry>) {
    forall p, q :: 0 <= p < q < |s| ==> Before(s[p], s[q])
  }

  ghost predicate Increasing(s: seq<Entry>) {
    forall p, q :: 0 <= p < q < |s| ==> s[p].index < s[q].index
  }

  lemma {:induction false} InsertKeeps(s: seq<Entry>, e: Entry)
    ensures multiset(Insert(s, e)) == multiset(s) + multiset{e}
  {
    if s != [] && s[|s| - 1].timestamp > e.timestamp {
      var n := |s| - 1;
      InsertKeeps(s[..n], e);
      assert s == s[..n] + [s[n]];
    }
  }

  lemma InsertOnly(s: seq<Entry>, e: Entry, p: nat)
    requires p < |Insert(s, e)|
    ensures Insert(s, e)[p] == e || Insert(s, e)[p] in s
  {
    InsertKeeps(s, e);
    assert Insert(s, e)[p] in multiset(Insert(s, e));
  }

  /** One entry comes no later than the other in the sorted order. */
  predicate Before(x: Entry, y: Entry) {
    x.timestamp < y.timestamp || (x.timestamp == y.timestamp && x.index < y.index)
  }

  lemma {:induction false} InsertOrders(s: seq<Entry>, e: Entry)
    requires Ordered(s) && forall p :: 0 <= p < |s| ==> s[p].index < e.index
    ensures Ordered(Insert(s, e))
  {
    if s != [] && s[|s| - 1].timestamp > e.timestamp {
      var n := |s| - 1;
      InsertOrders(s[..n], e);
      var r := Insert(s[..n], e);
      forall p | 0 <= p < |r|
        ensures Before(r[p], s[n])
      {
        InsertOnly(s[..n], e, p);
        if r[p] != e {
          var q :| 0 <= q < n && s[..n][q] == r[p];
          assert s[q] == r[p];
        }
      }
    }
  }

  /** A batch in index order comes out ordered, with the same entries. */
  lemma {:induction false} SortOrders(s: seq<Entry>)
    requires Increasing(s)
    ensures Ordered(StableSort(s))
    ensures multiset(StableSort(s)) == multiset(s)
  {
    if s == [] {
    } else {
      var n := |s| - 1;
      SortOrders(s[..n]);
      assert s == s[..n] + [s[n]];
      var r := StableSort(s[..n]);
      forall p | 0 <= p < |r|
        ensures r[p].index < s[n].index
      {
        assert r[p] in multiset(s[..n]);
        var q :| 0 <= q < n && s[..n][q] == r[p];
      }
      InsertOrders(r, s[n]);
      InsertKeeps(r, s[n]);
    }
  }

  // ---------------------------------------------------------------------------------------
  // chunks
  // ---------------------------------------------------------------------------------------

  function Bytes(s: seq<Entry>): nat {
    if s == [] then 0 else Bytes(s[..|s| - 1]) + Size(s[|s| - 1])
  }

  /** Whether e may join a chunk that is not empty. */
  predicate Joins(chunk: seq<Entry>, e: Entry)
    requires chunk != []
  {
    && |chunk| < MAX_EVENTS
    && Bytes(chunk) + Size(e) <= MAX_BYTES
    && e.timestamp - chunk[0].timestamp < MAX_SPAN
  }

  function Concat(cs: seq<seq<Entry>>): seq<Entry> {
    if cs == [] then [] else Concat(cs[..|cs| - 1]) + cs[|cs| - 1]
  }

  /** A request the service accepts. */
  ghost predicate Fits(chunk: seq<Entry>) {
    && 1 <= |chunk| <= 10_000
    && Bytes(chunk) <= 1_048_576
    && forall p, q :: 0 <= p < |chunk| && 0 <= q < |chunk| ==> chunk[p].timestamp - chunk[q].timestamp < 86_400_000
  }

  /** No chunk could have taken the entry that opens the next: the service would refuse the two
      in one request. */
  ghost predicate Greedy(cs: seq<seq<Entry>>) {
    forall k :: 0 < k < |cs| && cs[k] != [] && cs[k - 1] != [] ==> !Fits(cs[k - 1] + [cs[k][0]])
  }

  lemma ConcatSnoc(cs: seq<seq<Entry>>, c: seq<Entry>)
    ensures Concat(cs + [c]) == Concat(cs) + c
  {
    assert (cs + [c])[..|cs|] == cs;
  }

  lemma BytesSnoc(s: seq<Entry>, e: Entry)
    ensures Bytes(s + [e]) == Bytes(s) + Size(e)
  {
    assert (s + [e])[..|s|] == s;
  }

  ghost predicate ByTime(s: seq<Entry>) {
    forall p, q :: 0 <= p < q < |s| ==> s[p].timestamp <= s[q].timestamp
  }

  lemma GrowFits(chunk: seq<Entry>, e: Entry)
    requires chunk == [] || (Fits(chunk) && Joins(chunk, e))
    requires Size(e) <= MAX_BYTES && ByTime(chunk + [e])
    ensures Fits(chunk + [e])
  {
    BytesSnoc(chunk, e);
    var r := chunk + [e];
    forall p, q | 0 <= p < |r| && 0 <= q < |r|
      ensures r[p].timestamp - r[q].timestamp < MAX_SPAN
    {
      assert 0 < q ==> r[0].timestamp <= r[q].timestamp;
      assert p < |chunk| ==> r[p].timestamp <= r[|chunk|].timestamp;
      assert chunk != [] ==> r[0] == chunk[0];
    }
  }

  /** An entry that may not join makes the chunk one the service refuses. */
  lemma Crowds(chunk: seq<Entry>, e: Entry)
    requires chunk != [] && !Joins(chunk, e)
    ensures !Fits(chunk + [e])
  {
    BytesSnoc(chunk, e);
    var r := chunk + [e];
    assert r[|chunk|] == e && r[0] == chunk[0];
  }

  /** Where the loop of chunks stands once it has seen these entries. */
  ghost predicate Splitting(out: seq<seq<Entry>>, current: seq<Entry>, seen: seq<Entry>) {
    && Concat(out) + current == seen
    && (forall k :: 0 <= k < |out| ==> Fits(out[k]))
    && Greedy(out)
    && (if seen == [] then out == [] && current == [] else Fits(current))
    && (out != [] && current != [] && out[|out| - 1] != [] ==> !Fits(out[|out| - 1] + [current[0]]))
  }

  lemma OneByTime(e: Entry)
    ensures ByTime([e])
  {
  }

  lemma NewChunk(out: seq<seq<Entry>>, current: seq<Entry>, seen: seq<Entry>, e: Entry)
    requires Splitting(out, current, seen) && current != [] && !Joins(current, e)
    requires Size(e) <= MAX_BYTES
    ensures Splitting(out + [current], [e], seen + [e])
  {
    hide Concat, Joins, Greedy, Fits, ByTime;
    ConcatSnoc(out, current);
    OneByTime(e);
    GrowFits([], e);
    GreedySnoc(out, current);
    Crowds(current, e);
    assert [] + [e] == [e];
    assert Concat(out + [current]) + [e] == seen + [e];
  }

  lemma GreedySnoc(out: seq<seq<Entry>>, c: seq<Entry>)
    requires Greedy(out)
    requires out != [] && c != [] && out[|out| - 1] != [] ==> !Fits(out[|out| - 1] + [c[0]])
    ensures Greedy(out + [c])
  {
    hide Fits;
  }

  lemma GrowChunk(out: seq<seq<Entry>>, current: seq<Entry>, seen: seq<Entry>, e: Entry)
    requires Splitting(out, current, seen) && (current == [] || Joins(current, e))
    requires Size(e) <= MAX_BYTES && ByTime(current + [e])
    ensures Splitting(out, current + [e], seen + [e])
  {
    hide Concat, Joins;
    GrowFits(current, e);
    assert Concat(out) + (current + [e]) == (Concat(out) + current) + [e];
    if current != [] {
      assert (current + [e])[0] == current[0];
    }
  }

  lemma NothingSeen()
    ensures Splitting([], [], []) && Bytes([]) == 0
  {
  }

  method Chunks(entries: seq<Entry>) returns (out: seq<seq<Entry>>)
    requires ByTime(entries) && forall p :: 0 <= p < |entries| ==> Size(entries[p]) <= MAX_BYTES
    ensures Concat(out) == entries
    ensures forall k :: 0 <= k < |out| ==> Fits(out[k])
    ensures Greedy(out)
  {
    hide Concat, Bytes, ByTime, Fits, Greedy, Splitting;
    out := [];
    var current := [];
    var bytes := 0;
    NothingSeen();
    for i := 0 to |entries|
      invariant Splitting(out, current, entries[..i])
      invariant bytes == Bytes(current)
    {
      var e := entries[i];
      assert entries[..i + 1] == entries[..i] + [e];
      var size := |e.message| + PER_EVENT_OVERHEAD;
      if |current| > 0 && (|current| >= MAX_EVENTS || bytes + size > MAX_BYTES ||
                           e.timestamp - current[0].timestamp >= MAX_SPAN) {
        NewChunk(out, current, entries[..i], e);
        out := out + [current];
        current := [];
        bytes := 0;
        assert [] + [e] == [e];
      } else {
        SeenByTime(entries, out, current, e, i);
        GrowChunk(out, current, entries[..i], e);
      }
      BytesSnoc(current, e);
      current := current + [e];
      bytes := bytes + size;
    }
    assert entries[..|entries|] == entries;
    ChunksEnd(out, current, entries);
    if |current| > 0 {
      out := out + [current];
    }
  }

  lemma ChunksEnd(out: seq<seq<Entry>>, current: seq<Entry>, entries: seq<Entry>)
    requires Splitting(out, current, entries)
    ensures var all := if current == [] then out else out + [current];
      && Concat(all) == entries && (forall k :: 0 <= k < |all| ==> Fits(all[k])) && Greedy(all)
  {
    ConcatSnoc(out, current);
    GreedySnoc(out, current);
    hide Concat, Joins, Greedy, Fits;
    if current == [] {
      assert Concat(out) + [] == Concat(out);
    }
  }

  lemma SeenByTime(entries: seq<Entry>, out: seq<seq<Entry>>, current: seq<Entry>, e: Entry, i: nat)
    requires ByTime(entries) && i < |entries| && Splitting(out, current, entries[..i]) && e == entries[i]
    ensures ByTime(current + [e])
  {
    SuffixByTime(entries, Concat(out), current, e, i);
  }

  lemma SuffixByTime(entries: seq<Entry>, front: seq<Entry>, current: seq<Entry>, e: Entry, i: nat)
    requires ByTime(entries) && i < |entries| && front + current == entries[..i] && e == entries[i]
    ensures ByTime(current + [e])
  {
    forall p | 0 <= p < |current|
      ensures current[p] == entries[|front| + p]
    {
      assert (front + current)[|front| + p] == current[p];
    }
    assert |front| + |current| == i;
  }
}
