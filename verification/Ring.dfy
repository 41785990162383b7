/** drain/memory/memory.go: the last events of a drain, in a buffer that is appended to until it
    is full and overwritten from then on. */
module Ring {
  /** The last n elements, or all of them. */
  function LastOf<T>(s: seq<T>, n: nat): seq<T> {
    if |s| <= n then s else s[|s| - n..]
  }

  class Memory<T> {
    const size: nat
    var buf: seq<T>
    var next: nat
    ghost var sent: seq<T>

    /** What the buffer stands for: the last events sent since the last Clear. */
    ghost predicate Valid()
      reads this
    {
      && size >= 1 && |buf| <= size && next < size
      && (|buf| < size ==> next == 0)
      && (next <= |buf| ==> buf[next..] + buf[..next] == LastOf(sent, size))
      && |buf| == |LastOf(sent, size)|
    }

    constructor (requested: int)
      ensures Valid() && sent == [] && size == if requested <= 0 then 1000 else requested
    {
      size := if requested <= 0 then 1000 else requested;
      buf, next, sent := [], 0, [];
    }

    method Send(event: T)
      requires Valid()
      modifies this
      ensures Valid() && sent == old(sent) + [event]
    {
      ghost var kept := LastOf(sent, size);
      if |buf| < size {
        buf := buf + [event];
      } else {
        OverwriteOldest(buf, next, event);
        buf := buf[next := event];
        next := (next + 1) % size;
      }
      sent := sent + [event];
      assert LastOf(sent, size) == if |kept| < size then kept + [event] else kept[1..] + [event];
    }

    /** The events in the order they were sent. */
    method Snapshot() returns (out: seq<T>)
      requires Valid()
      ensures out == LastOf(sent, size)
    {
      hide LastOf;
      if |buf| < size {
        assert buf[next..] + buf[..next] == buf;
        return buf;
      }
      out := [];
      for j := next to size
        invariant out == buf[next..j]
      {
        out := out + [buf[j]];
      }
      for j := 0 to next
        invariant out == buf[next..] + buf[..j]
      {
        out := out + [buf[j]];
      }
    }

    method Clear()
      requires Valid()
      modifies this
      ensures Valid() && sent == []
    {
      buf, next, sent := [], 0, [];
    }
  }

  lemma NextIndex(next: nat, size: nat)
    requires next < size
    ensures (next + 1) % size == if next + 1 == size then 0 else next + 1
  {
  }

  /** Writing over the oldest event and moving on drops it from the front and adds at the end. */
  lemma OverwriteOldest<T>(buf: seq<T>, next: nat, event: T)
    requires next < |buf|
    ensures buf[next := event][(next + 1) % |buf|..] + buf[next := event][..(next + 1) % |buf|]
      == (buf[next..] + buf[..next])[1..] + [event]
  {
    var b := buf[next := event];
    NextIndex(next, |buf|);
    if next + 1 < |buf| {
      assert b[next + 1..] == buf[next..][1..] && b[..next + 1] == buf[..next] + [event];
    } else {
      assert b[..0] == [] && b[0..] == b && b == buf[..next] + [event] && buf[next..] == [buf[next]];
    }
  }
}
