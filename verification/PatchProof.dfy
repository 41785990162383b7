/** Applying a patch gives back the object it was built for, in any order of its operations. */
module PatchProof {
  import opened GoBytes
  import opened Tree
  import opened Keys
  import opened Pointer
  import opened Patch

  // ---------------------------------------------------------------------------------------
  // The patch as a list of edits on key paths
  // ---------------------------------------------------------------------------------------

  /** The value an operation at this key path carries. */
  function Masked(cfg: Config, path: seq<string>, v: Value): Value {
    if cfg.Redacts? && cfg.redactor.denies(path) then Str(cfg.redactor.replacement) else v
  }

  function Nest(key: string, es: seq<Edit>): (r: seq<Edit>)
    ensures |r| == |es| && forall i :: 0 <= i < |r| ==> r[i] == es[i].(path := [key] + es[i].path)
  {
    seq(|es|, i requires 0 <= i < |es| => es[i].(path := [key] + es[i].path))
  }

  /** The edits of one object, relative to it; at is where the object stands. */
  ghost function ObjectEdits(b: Value, a: Value, at: seq<string>, cfg: Config): seq<Edit>
    requires b.Obj? && a.Obj?
    decreases b, 2, 0
  {
    KeysEdits(b, a, Sorted(b.fields.Keys + a.fields.Keys), at, cfg)
  }

  ghost function KeysEdits(b: Value, a: Value, keys: seq<string>, at: seq<string>, cfg: Config): seq<Edit>
    requires b.Obj? && a.Obj?
    decreases b, 1, |keys|
  {
    if keys == [] then []
    else KeysEdits(b, a, keys[..|keys| - 1], at, cfg) + KeyEdits(b, a, keys[|keys| - 1], at, cfg)
  }

  ghost function KeyEdits(b: Value, a: Value, key: string, at: seq<string>, cfg: Config): seq<Edit>
    requires b.Obj? && a.Obj?
    decreases b, 0, 0
  {
    if BothHoldObjects(b.fields, a.fields, key) then
      Nest(key, ObjectEdits(b.fields[key], a.fields[key], at + [key], cfg))
    else if key !in b.fields && key !in a.fields then []
    else if key !in b.fields then [Edit(Add, [key], Masked(cfg, at + [key], a.fields[key]))]
    else if key !in a.fields then [Edit(Remove, [key], Null)]
    else if b.fields[key] != a.fields[key] then [Edit(Replace, [key], Masked(cfg, at + [key], a.fields[key]))]
    else []
  }

  /** The same edits seen from the root. */
  function Under(at: seq<string>, es: seq<Edit>): (r: seq<Edit>)
    ensures |r| == |es| && forall i :: 0 <= i < |r| ==> r[i] == es[i].(path := at + es[i].path)
  {
    seq(|es|, i requires 0 <= i < |es| => es[i].(path := at + es[i].path))
  }

  lemma RenderSnoc(at: seq<string>, key: string)
    ensures Render(at) + "/" + EscapePointer(key) == Render(at + [key])
    ensures PathSegments(Render(at + [key])) == at + [key]
  {
    assert (at + [key])[..|at|] == at;
    PointerRoundTrip(at + [key]);
  }

  lemma UnderNest(at: seq<string>, key: string, es: seq<Edit>)
    ensures Under(at, Nest(key, es)) == Under(at + [key], es)
  {
    forall i | 0 <= i < |es|
      ensures at + ([key] + es[i].path) == (at + [key]) + es[i].path
    {
    }
  }

  lemma UnderConcat(at: seq<string>, x: seq<Edit>, y: seq<Edit>)
    ensures Under(at, x + y) == Under(at, x) + Under(at, y)
  {
  }

  lemma ReadConcat(x: seq<Operation>, y: seq<Operation>)
    ensures ReadAll(x + y) == ReadAll(x) + ReadAll(y)
  {
  }

  /** Reading the pointers the code wrote gives the edits, at every depth. */
  lemma {:induction false} ReadObject(b: Value, a: Value, at: seq<string>, cfg: Config)
    requires b.Obj? && a.Obj?
    ensures ReadAll(PatchObjects(b, a, Render(at), cfg)) == Under(at, ObjectEdits(b, a, at, cfg))
    decreases b, 2, 0
  {
    ReadKeys(b, a, Sorted(b.fields.Keys + a.fields.Keys), at, cfg);
  }

  lemma {:induction false} ReadKeys(b: Value, a: Value, keys: seq<string>, at: seq<string>, cfg: Config)
    requires b.Obj? && a.Obj?
    ensures ReadAll(PatchKeys(b, a, keys, Render(at), cfg)) == Under(at, KeysEdits(b, a, keys, at, cfg))
    decreases b, 1, |keys|
  {
    hide PatchKey, KeyEdits, Render;
    if keys == [] {
    } else {
      var front, key := keys[..|keys| - 1], keys[|keys| - 1];
      ReadKeys(b, a, front, at, cfg);
      ReadKey(b, a, key, at, cfg);
      ReadConcat(PatchKeys(b, a, front, Render(at), cfg),
                 PatchKey(b, a, key, Render(at) + "/" + EscapePointer(key), cfg));
      UnderConcat(at, KeysEdits(b, a, front, at, cfg), KeyEdits(b, a, key, at, cfg));
    }
  }

  lemma {:induction false} ReadKey(b: Value, a: Value, key: string, at: seq<string>, cfg: Config)
    requires b.Obj? && a.Obj?
    ensures ReadAll(PatchKey(b, a, key, Render(at) + "/" + EscapePointer(key), cfg))
         == Under(at, KeyEdits(b, a, key, at, cfg))
    decreases b, 0, 0
  {
    hide Render, PathSegments, ObjectEdits, PatchObjects;
    RenderSnoc(at, key);
    if BothHoldObjects(b.fields, a.fields, key) {
      ReadObject(b.fields[key], a.fields[key], at + [key], cfg);
      UnderNest(at, key, ObjectEdits(b.fields[key], a.fields[key], at + [key], cfg));
    }
  }

  // ---------------------------------------------------------------------------------------
  // Applying the edits
  // ---------------------------------------------------------------------------------------

  /** What the patched object must be: after, with a mask on every changed value that the
      redactor denies. */
  ghost function Wanted(b: Value, a: Value, at: seq<string>, cfg: Config): (w: Value)
    requires b.Obj? && a.Obj?
    ensures w.Obj? && w.fields.Keys == a.fields.Keys
    decreases b
  {
    Obj(map k | k in a.fields ::
      if BothHoldObjects(b.fields, a.fields, k) then Wanted(b.fields[k], a.fields[k], at + [k], cfg)
      else if k in b.fields && b.fields[k] == a.fields[k] then a.fields[k]
      else Masked(cfg, at + [k], a.fields[k]))
  }

  /** b with the given keys already turned into what they must become. */
  ghost function Partway(b: Value, a: Value, keys: set<string>, at: seq<string>, cfg: Config): Object
    requires b.Obj? && a.Obj?
  {
    map k | k in b.fields.Keys + a.fields.Keys && (if k in keys then k in a.fields else k in b.fields) ::
      if k in keys then Wanted(b, a, at, cfg).fields[k] else b.fields[k]
  }

  lemma {:induction false} ApplyConcat(x: seq<Edit>, y: seq<Edit>, doc: Value)
    ensures ApplyEdits(x + y, doc) ==
      var d := ApplyEdits(x, doc);
      if d.None? then None else ApplyEdits(y, d.value)
  {
    if x == [] {
      assert x + y == y;
    } else {
      assert (x + y)[1..] == x[1..] + y;
      var next := ApplyEdit(x[0], doc);
      if next.Some? {
        ApplyConcat(x[1..], y, next.value);
      }
    }
  }

  /** Edits below a key act on the value at that key. */
  lemma {:induction false} ApplyNest(key: string, es: seq<Edit>, doc: Object)
    requires key in doc && forall i :: 0 <= i < |es| ==> es[i].path != []
    ensures ApplyEdits(Nest(key, es), Obj(doc)) ==
      var v := ApplyEdits(es, doc[key]);
      if v.None? then None else Some(Obj(doc[key := v.value]))
  {
    if es == [] {
      assert doc == doc[key := doc[key]];
    } else {
      var e := Nest(key, es)[0];
      assert e.path[1..] == es[0].path && e.(path := e.path[1..]) == es[0];
      assert Nest(key, es)[1..] == Nest(key, es[1..]);
      var inner := ApplyEdit(es[0], doc[key]);
      if inner.Some? {
        var d := doc[key := inner.value];
        ApplyNest(key, es[1..], d);
        var v := ApplyEdits(es[1..], inner.value);
        if v.Some? {
          assert d[key := v.value] == doc[key := v.value];
        }
      }
    }
  }

  /** Every edit names at least one key, and starts with the key it was made for. */
  lemma {:induction false} EditPaths(b: Value, a: Value, keys: seq<string>, at: seq<string>, cfg: Config)
    requires b.Obj? && a.Obj?
    ensures forall i :: 0 <= i < |KeysEdits(b, a, keys, at, cfg)| ==>
      KeysEdits(b, a, keys, at, cfg)[i].path != [] && KeysEdits(b, a, keys, at, cfg)[i].path[0] in keys
    decreases |keys|
  {
    if keys == [] {
    } else {
      EditPaths(b, a, keys[..|keys| - 1], at, cfg);
      var last := KeyEdits(b, a, keys[|keys| - 1], at, cfg);
      assert forall i :: 0 <= i < |last| ==> last[i].path[0] == keys[|keys| - 1];
    }
  }

  lemma {:induction false} ApplyObject(b: Value, a: Value, at: seq<string>, cfg: Config)
    requires b.Obj? && a.Obj?
    ensures ApplyEdits(ObjectEdits(b, a, at, cfg), b) == Some(Wanted(b, a, at, cfg))
    decreases b, 2, 0
  {
    hide Wanted, Sorted, KeysEdits, ApplyEdits;
    var all := b.fields.Keys + a.fields.Keys;
    ApplyKeys(b, a, Sorted(all), at, cfg);
    assert Elems(Sorted(all)) == all;
    assert Partway(b, a, all, at, cfg) == Wanted(b, a, at, cfg).fields;
  }

  lemma {:induction false} ApplyKeys(b: Value, a: Value, keys: seq<string>, at: seq<string>, cfg: Config)
    requires b.Obj? && a.Obj? && Distinct(keys)
    requires forall k :: k in keys ==> k in b.fields || k in a.fields
    ensures ApplyEdits(KeysEdits(b, a, keys, at, cfg), b) == Some(Obj(Partway(b, a, Elems(keys), at, cfg)))
    decreases b, 1, |keys|
  {
    hide Wanted, KeyEdits, ApplyEdit;
    if keys == [] {
      assert Partway(b, a, Elems(keys), at, cfg) == b.fields;
    } else {
      var front, key := keys[..|keys| - 1], keys[|keys| - 1];
      ApplyKeys(b, a, front, at, cfg);
      ApplyConcat(KeysEdits(b, a, front, at, cfg), KeyEdits(b, a, key, at, cfg), b);
      ApplyKey(b, a, Elems(front), key, at, cfg);
      assert Elems(keys) == Elems(front) + {key};
    }
  }

  lemma {:induction false} ApplyKey(b: Value, a: Value, seen: set<string>, key: string, at: seq<string>, cfg: Config)
    requires b.Obj? && a.Obj? && key !in seen && (key in b.fields || key in a.fields)
    ensures ApplyEdits(KeyEdits(b, a, key, at, cfg), Obj(Partway(b, a, seen, at, cfg)))
         == Some(Obj(Partway(b, a, seen + {key}, at, cfg)))
    decreases b, 0, 0
  {
    hide Sorted, KeysEdits, ObjectEdits, ApplyEdits, Wanted, Distinct;
    var doc, next := Partway(b, a, seen, at, cfg), Partway(b, a, seen + {key}, at, cfg);
    if BothHoldObjects(b.fields, a.fields, key) {
      WantedBelow(b, a, key, at, cfg);
      EditsBelow(b.fields[key], a.fields[key], at + [key], cfg);
      var es := ObjectEdits(b.fields[key], a.fields[key], at + [key], cfg);
      ApplyObject(b.fields[key], a.fields[key], at + [key], cfg);
      ApplyNest(key, es, doc);
      assert next == doc[key := Wanted(b.fields[key], a.fields[key], at + [key], cfg)];
    } else {
      ApplyLeaf(b, a, seen, key, at, cfg);
    }
  }

  lemma WantedBelow(b: Value, a: Value, key: string, at: seq<string>, cfg: Config)
    requires b.Obj? && a.Obj? && BothHoldObjects(b.fields, a.fields, key)
    ensures Wanted(b, a, at, cfg).fields[key] == Wanted(b.fields[key], a.fields[key], at + [key], cfg)
  {
  }

  lemma EditsBelow(b: Value, a: Value, at: seq<string>, cfg: Config)
    requires b.Obj? && a.Obj?
    ensures forall i :: 0 <= i < |ObjectEdits(b, a, at, cfg)| ==> ObjectEdits(b, a, at, cfg)[i].path != []
  {
    EditPaths(b, a, Sorted(b.fields.Keys + a.fields.Keys), at, cfg);
  }

  lemma ApplyLeaf(b: Value, a: Value, seen: set<string>, key: string, at: seq<string>, cfg: Config)
    requires b.Obj? && a.Obj? && key !in seen && (key in b.fields || key in a.fields)
    requires !BothHoldObjects(b.fields, a.fields, key)
    ensures ApplyEdits(KeyEdits(b, a, key, at, cfg), Obj(Partway(b, a, seen, at, cfg)))
         == Some(Obj(Partway(b, a, seen + {key}, at, cfg)))
  {
    var doc, next := Partway(b, a, seen, at, cfg), Partway(b, a, seen + {key}, at, cfg);
    var es := KeyEdits(b, a, key, at, cfg);
    if es == [] {
      assert next == doc;
    } else {
      assert ApplyEdits(es[1..], Obj(next)) == Some(Obj(next));
      if key !in a.fields {
        assert next == doc - {key};
      } else {
        assert next == doc[key := Masked(cfg, at + [key], a.fields[key])];
      }
    }
  }
}
