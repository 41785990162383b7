/** sort.Strings over the keys of a map: byte order, each key once. */
module Keys {
  /** a comes no later than b in byte order. */
  predicate AtMost(a: string, b: string) {
    a == "" || (b != "" && (a[0] < b[0] || (a[0] == b[0] && AtMost(a[1..], b[1..]))))
  }

  lemma {:induction false} AtMostTotal(a: string, b: string)
    ensures AtMost(a, b) || AtMost(b, a)
    ensures AtMost(a, b) && AtMost(b, a) ==> a == b
  {
    if a == "" || b == "" || a[0] != b[0] {
    } else {
      AtMostTotal(a[1..], b[1..]);
      assert a == [a[0]] + a[1..] && b == [b[0]] + b[1..];
    }
  }

  lemma {:induction false} AtMostTransitive(a: string, b: string, c: string)
    requires AtMost(a, b) && AtMost(b, c)
    ensures AtMost(a, c)
  {
    if a != "" && a[0] == b[0] == c[0] {
      AtMostTransitive(a[1..], b[1..], c[1..]);
    }
  }

  function Elems(keys: seq<string>): set<string> {
    set k | k in keys
  }

  predicate IsLeast(k: string, s: set<string>) {
    k in s && forall x :: x in s ==> AtMost(k, x)
  }

  lemma {:induction false} LeastExists(s: set<string>)
    requires s != {}
    ensures exists k :: IsLeast(k, s)
    decreases |s|
  {
    var x :| x in s;
    AtMostTotal(x, x);
    if s == {x} {
      assert IsLeast(x, s);
    } else {
      LeastExists(s - {x});
      var k :| IsLeast(k, s - {x});
      AtMostTotal(x, k);
      if AtMost(x, k) {
        forall y | y in s
          ensures AtMost(x, y)
        {
          if y != x {
            AtMostTransitive(x, k, y);
          }
        }
        assert IsLeast(x, s);
      } else {
        assert IsLeast(k, s);
      }
    }
  }

  /** The keys of s in byte order. */
  ghost function Sorted(s: set<string>): (r: seq<string>)
    ensures |r| == |s|
    ensures forall k :: k in r <==> k in s
    ensures Distinct(r)
    decreases |s|
  {
    if s == {} then []
    else
      LeastExists(s);
      var k :| IsLeast(k, s);
      [k] + Sorted(s - {k})
  }

  ghost predicate Distinct(r: seq<string>) {
    forall i, j :: 0 <= i < j < |r| ==> r[i] != r[j]
  }

  /** Byte order, which with the keys determines the sequence. */
  lemma {:induction false} SortedInOrder(s: set<string>)
    ensures forall i, j :: 0 <= i < j < |Sorted(s)| ==> AtMost(Sorted(s)[i], Sorted(s)[j])
    decreases |s|
  {
    if s == {} {
    } else {
      var r := Sorted(s);
      assert IsLeast(r[0], s) && r[1..] == Sorted(s - {r[0]});
      SortedInOrder(s - {r[0]});
      forall i, j | 0 <= i < j < |r|
        ensures AtMost(r[i], r[j])
      {
        if i > 0 {
          assert r[i] == r[1..][i - 1] && r[j] == r[1..][j - 1];
        } else {
          assert r[j] in s;
        }
      }
    }
  }

  lemma SortedStep(s: set<string>, k: string)
    requires IsLeast(k, s)
    ensures Sorted(s) == [k] + Sorted(s - {k})
  {
    var first := Sorted(s)[0];
    assert IsLeast(first, s) && Sorted(s) == [first] + Sorted(s - {first});
    AtMostTotal(k, first);
  }

  method SortStrings(s: set<string>) returns (r: seq<string>)
    ensures r == Sorted(s)
  {
    hide Sorted, AtMost;
    r := [];
    var rest := s;
    while rest != {}
      invariant r + Sorted(rest) == Sorted(s)
      decreases |rest|
    {
      LeastExists(rest);
      var k :| k in rest && forall x :: x in rest ==> AtMost(k, x);
      SortedStep(rest, k);
      r := r + [k];
      rest := rest - {k};
    }
  }
}
