/**
 drain/splunk/splunk.go, sendChunk as it runs. The halves of a chunk are slices of one index
 array, a refused chunk is returned as its own slice, and append writes the second half's
 drops into whatever room follows the first half's: into the index array itself. The method
 shows that no index is lost by that.
 */
module SplunkSlices {
  import opened GoBytes
  import opened Splunk

  /** A Go slice whose capacity reaches to the end of its array. */
  datatype Slice = Nil | Slice(at: array<int>, from: nat, size: nat)

  predicate Fits(s: Slice) {
    s.Slice? ==> s.from + s.size <= s.at.Length
  }

  function Contents(s: Slice): (r: seq<int>)
    requires Fits(s)
    reads if s.Slice? then {s.at} else {}
    ensures |r| == if s.Slice? then s.size else 0
  {
    if s.Slice? then s.at[s.from..s.from + s.size] else []
  }

  /** copy, which reads its source before it writes. */
  method CopyInto(at: array<int>, start: nat, more: seq<int>)
    requires start + |more| <= at.Length
    modifies at
    ensures at[..] == old(at[..start]) + more + old(at[start + |more|..])
  {
    for j := 0 to |more|
      invariant at[..] == old(at[..start]) + more[..j] + old(at[start + j..])
    {
      at[start + j] := more[j];
    }
    assert more[..|more|] == more;
  }

  method Grow(all: seq<int>) returns (at: array<int>)
    ensures fresh(at) && at.Length >= |all| && at[..|all|] == all
  {
    var room: nat :| room >= |all|;
    at := new int[room](k => if 0 <= k < |all| then all[k] else 0);
  }

  /** append(a, b...): in place where the capacity allows it, otherwise into a new array. */
  method Append(a: Slice, b: Slice) returns (r: Slice)
    requires Fits(a) && Fits(b)
    modifies if a.Slice? then {a.at} else {}
    ensures Fits(r) && Contents(r) == old(Contents(a)) + old(Contents(b))
    ensures r.Slice? && !fresh(r.at) ==>
      a.Slice? && r.at == a.at && r.from == a.from && r.size == a.size + |old(Contents(b))|
    ensures a.Slice? ==> forall k :: 0 <= k < a.at.Length && !(a.from + a.size <= k < a.from + a.size + |old(Contents(b))|) ==>
      a.at[k] == old(a.at[k])
  {
    var more := Contents(b);
    if |more| == 0 {
      return a;
    }
    if a.Slice? && a.from + a.size + |more| <= a.at.Length {
      CopyInto(a.at, a.from + a.size, more);
      r := Slice(a.at, a.from, a.size + |more|);
    } else {
      var all := Contents(a) + more;
      var grown := Grow(all);
      r := Slice(grown, 0, |all|);
    }
  }

  twostate lemma ContentsStay(s: Slice)
    requires Fits(s) && (s.Slice? ==> forall k :: s.from <= k < s.from + s.size ==> s.at[k] == old(s.at[k]))
    ensures Contents(s) == old(Contents(s))
  {
  }

  lemma OwnSlice(indexes: array<int>, base: nat, lo: nat, hi: nat)
    requires base <= lo <= hi && hi - base <= indexes.Length
    requires forall k :: lo - base <= k < hi - base ==> indexes[k] == base + k
    ensures Contents(Slice(indexes, lo - base, hi - lo)) == Range(lo, hi)
  {
  }

  /** The events lo up to hi of a chunk that begins at base. */
  method SendChunk(indexes: array<int>, base: nat, lo: nat, hi: nat, split: bool, n: nat, collector: Collector)
    returns (fault: Option<Fault>, dropped: Slice, reason: Reason, calls: nat)
    requires base <= lo <= hi && hi - base <= indexes.Length
    requires forall k :: lo - base <= k < hi - base ==> indexes[k] == base + k
    modifies indexes
    ensures fault == Send(lo, hi, split, n, collector).fault
    ensures calls == |Send(lo, hi, split, n, collector).requests|
    ensures reason == Send(lo, hi, split, n, collector).reason
    ensures Fits(dropped)
    ensures dropped.Slice? && !fresh(dropped.at) ==>
      dropped.at == indexes && lo - base <= dropped.from && dropped.from + dropped.size <= hi - base
    ensures Contents(dropped) == Send(lo, hi, split, n, collector).dropped
    ensures forall k :: 0 <= k < indexes.Length && !(lo - base <= k < hi - base) ==> indexes[k] == old(indexes[k])
    decreases hi - lo
  {
    hide Judge, Send, Contents;
    var reply := collector(n, lo, hi);
    var verdict := Judge(reply, hi - lo, split);
    if !verdict.Halve? {
      Settled(lo, hi, split, n, collector);
      match verdict {
        case Landed => return None, Nil, NoReason, 1;
        case Fail(f) => return Some(f), Nil, NoReason, 1;
        case Drop(why) =>
          dropped := Slice(indexes, lo - base, hi - lo);
          OwnSlice(indexes, base, lo, hi);
          return None, dropped, why, 1;
      }
    }
    ghost var mid', a, b := Halves(lo, hi, split, n, collector);
    var mid := Middle(lo, hi);
    var fault1, dropped1, reason1, calls1 := SendChunk(indexes, base, lo, mid, split, n + 1, collector);
    if fault1.Some? {
      return fault1, Nil, NoReason, 1 + calls1;
    }
    label Between:
    DropsFit(mid, hi, split, n + 1 + calls1, collector);
    var fault2, dropped2, reason2, calls2 := SendChunk(indexes, base, mid, hi, split, n + 1 + calls1, collector);
    if fault2.Some? {
      return fault2, Nil, NoReason, 1 + calls1 + calls2;
    }
    ContentsStay@Between(dropped1);
    assert Contents(dropped1) == a.dropped && Contents(dropped2) == b.dropped;
    dropped := Append(dropped1, dropped2);
    return None, dropped, FirstReason(reason1, reason2), 1 + calls1 + calls2;
  }
}
