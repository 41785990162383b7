/** preset/preset.go: reading, writing and removing the value at a path of keys. */
module TreePaths {
  import opened GoBytes
  import opened Tree

  /** The value that is not an object at this path of keys below v, if there is one. */
  function Leaf(v: Value, ks: seq<string>): Option<Value> {
    if ks == [] then if v.Obj? then None else Some(v)
    else if v.Obj? && ks[0] in v.fields then Leaf(v.fields[ks[0]], ks[1..])
    else None
  }

  /** setPath: every step that holds no object becomes a new one. */
  function SetPath(o: Object, ks: seq<string>, v: Value): Object
    requires ks != []
    decreases |ks|
  {
    if |ks| == 1 then o[ks[0] := v]
    else
      var next := if ks[0] in o && o[ks[0]].Obj? then o[ks[0]].fields else map[];
      o[ks[0] := Obj(SetPath(next, ks[1..], v))]
  }

  /** deletePath: the value goes, and then each object the removal left empty. */
  function DeletePath(o: Object, ks: seq<string>): Object
    requires ks != []
    decreases |ks|
  {
    if |ks| == 1 then o - {ks[0]}
    else if ks[0] !in o || !o[ks[0]].Obj? then o
    else
      var left := DeletePath(o[ks[0]].fields, ks[1..]);
      if left == map[] then o - {ks[0]} else o[ks[0] := Obj(left)]
  }

  /** No empty object below the top. */
  predicate Solid(v: Value) {
    v.Obj? ==> v.fields != map[] && forall k :: k in v.fields ==> Solid(v.fields[k])
  }

  predicate SolidBelow(o: Object) {
    forall k :: k in o ==> Solid(o[k])
  }

  /** Every key of every object, down to the first value that is not one, is free of dots. */
  predicate DotFree(v: Value) {
    v.Obj? ==> forall k :: k in v.fields ==> Without('.', k) && DotFree(v.fields[k])
  }

  predicate AllDotFree(ks: seq<string>) {
    forall i :: 0 <= i < |ks| ==> Without('.', ks[i])
  }

  // ---------------------------------------------------------------------------------------
  // Leaves determine the tree
  // ---------------------------------------------------------------------------------------

  lemma {:induction false} HasLeaf(v: Value) returns (ks: seq<string>)
    requires Solid(v)
    ensures Leaf(v, ks).Some?
    decreases v
  {
    if v.Obj? {
      var k :| k in v.fields;
      var rest := HasLeaf(v.fields[k]);
      ks := [k] + rest;
      assert ks[1..] == rest;
    } else {
      ks := [];
    }
  }

  /** Two objects without empty objects inside are equal when they have the same leaves. */
  lemma {:induction false} LeavesDetermine(a: Value, b: Value)
    requires a.Obj? && b.Obj? && SolidBelow(a.fields) && SolidBelow(b.fields)
    requires forall ks :: Leaf(a, ks) == Leaf(b, ks)
    ensures a == b
    decreases a
  {
    forall k | k in a.fields || k in b.fields
      ensures k in a.fields && k in b.fields && a.fields[k] == b.fields[k]
    {
      SameKey(a, b, k);
      var x, y := a.fields[k], b.fields[k];
      forall ks
        ensures Leaf(x, ks) == Leaf(y, ks)
      {
        assert ([k] + ks)[1..] == ks;
        assert Leaf(a, [k] + ks) == Leaf(b, [k] + ks);
      }
      assert Leaf(x, []) == Leaf(y, []);
      if x.Obj? {
        LeavesDetermine(x, y);
      }
    }
    assert a.fields == b.fields;
  }

  lemma SameKey(a: Value, b: Value, k: string)
    requires a.Obj? && b.Obj? && SolidBelow(a.fields) && SolidBelow(b.fields)
    requires forall ks :: Leaf(a, ks) == Leaf(b, ks)
    requires k in a.fields || k in b.fields
    ensures k in a.fields && k in b.fields
  {
    var ks := HasLeaf(if k in a.fields then a.fields[k] else b.fields[k]);
    assert ([k] + ks)[1..] == ks;
    assert Leaf(a, [k] + ks) == Leaf(b, [k] + ks);
  }

  /** No leaf stands above another. */
  lemma {:induction false} LeavesPrefixFree(v: Value, ks: seq<string>, js: seq<string>)
    requires Leaf(v, ks).Some? && Leaf(v, js).Some? && ks <= js
    ensures ks == js
  {
    if ks == [] {
    } else {
      assert ks[1..] <= js[1..];
      LeavesPrefixFree(v.fields[ks[0]], ks[1..], js[1..]);
      assert js == [js[0]] + js[1..] && ks == [ks[0]] + ks[1..];
    }
  }

  lemma {:induction false} LeafKeysDotFree(v: Value, ks: seq<string>)
    requires DotFree(v) && Leaf(v, ks).Some?
    ensures AllDotFree(ks)
  {
    if ks == [] {
    } else {
      LeafKeysDotFree(v.fields[ks[0]], ks[1..]);
    }
  }

  // ---------------------------------------------------------------------------------------
  // setPath and deletePath
  // ---------------------------------------------------------------------------------------

  /** After setPath the leaf is there, none stands above or below it, and every other leaf stays. */
  lemma {:induction false} SetLeaf(o: Object, ks: seq<string>, v: Value, js: seq<string>)
    requires ks != [] && !v.Obj?
    ensures Leaf(Obj(SetPath(o, ks, v)), js) ==
      if js == ks then Some(v) else if ks <= js || js <= ks then None else Leaf(Obj(o), js)
    decreases |ks|
  {
    if js == [] || js[0] != ks[0] {
    } else {
      assert js == [ks[0]] + js[1..] && ks == [ks[0]] + ks[1..];
      if |ks| == 1 {
        assert ks <= js;
      } else {
        var next := if ks[0] in o && o[ks[0]].Obj? then o[ks[0]].fields else map[];
        SetLeaf(next, ks[1..], v, js[1..]);
        assert (ks <= js <==> ks[1..] <= js[1..]) && (js <= ks <==> js[1..] <= ks[1..]);
      }
    }
  }

  lemma {:induction false} SetKeepsSolid(o: Object, ks: seq<string>, v: Value)
    requires ks != [] && SolidBelow(o) && Solid(v)
    ensures SolidBelow(SetPath(o, ks, v))
    decreases |ks|
  {
    if |ks| <= 1 {
    } else {
      var next := if ks[0] in o && o[ks[0]].Obj? then o[ks[0]].fields else map[];
      SetKeepsSolid(next, ks[1..], v);
      assert ks[1] in SetPath(next, ks[1..], v);
    }
  }

  lemma {:induction false} SetKeepsDotFree(o: Object, ks: seq<string>, v: Value)
    requires ks != [] && DotFree(Obj(o)) && DotFree(v) && AllDotFree(ks)
    ensures DotFree(Obj(SetPath(o, ks, v)))
    decreases |ks|
  {
    if |ks| <= 1 {
    } else {
      var next := if ks[0] in o && o[ks[0]].Obj? then o[ks[0]].fields else map[];
      SetKeepsDotFree(next, ks[1..], v);
    }
  }

  /** Nothing stands on the path: it leaves the tree at a key some object does not have. */
  predicate Free(o: Object, ks: seq<string>)
    requires ks != []
    decreases |ks|
  {
    ks[0] !in o || (|ks| > 1 && o[ks[0]].Obj? && Free(o[ks[0]].fields, ks[1..]))
  }

  /** deletePath undoes setPath, the objects setPath made included. */
  lemma {:induction false} DeleteUndoesSet(o: Object, ks: seq<string>, v: Value)
    requires ks != [] && SolidBelow(o) && Free(o, ks)
    ensures DeletePath(SetPath(o, ks, v), ks) == o
    decreases |ks|
  {
    var k := ks[0];
    if |ks| <= 1 {
    } else {
      if k in o {
        DeleteUndoesSet(o[k].fields, ks[1..], v);
        assert o[k].fields != map[];
        assert o[k := o[k]] == o;
      } else {
        DeleteUndoesSet(map[], ks[1..], v);
      }
    }
  }

  lemma {:induction false} DeleteKeepsSolid(o: Object, ks: seq<string>)
    requires ks != [] && SolidBelow(o)
    ensures SolidBelow(DeletePath(o, ks))
    decreases |ks|
  {
    if |ks| > 1 && ks[0] in o && o[ks[0]].Obj? {
      DeleteKeepsSolid(o[ks[0]].fields, ks[1..]);
    }
  }

  /** deletePath takes away the leaves at and below the path, and no other. */
  lemma {:induction false} DeleteLeaf(o: Object, ks: seq<string>, js: seq<string>)
    requires ks != []
    ensures Leaf(Obj(DeletePath(o, ks)), js) == if ks <= js then None else Leaf(Obj(o), js)
    decreases |ks|
  {
    if js == [] || js[0] != ks[0] {
    } else {
      assert js == [ks[0]] + js[1..] && ks == [ks[0]] + ks[1..];
      if |ks| == 1 {
        assert ks <= js;
      } else if ks[0] in o && o[ks[0]].Obj? {
        DeleteLeaf(o[ks[0]].fields, ks[1..], js[1..]);
        assert ks <= js <==> ks[1..] <= js[1..];
        if DeletePath(o[ks[0]].fields, ks[1..]) == map[] {
          assert Leaf(Obj(map[]), js[1..]) == None;
        }
      }
    }
  }
}
