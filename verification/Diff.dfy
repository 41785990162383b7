/** audit/diff.go: the nested tree of changed fields, and its agreement with the patch. */
module Diff {
  import opened GoBytes
  import opened Tree
  import opened Keys
  import opened Patch
  import opened PatchProof
  import opened PatchOrder
  import opened PatchMasks

  function Get(o: Object, key: string): Value {
    if key in o then o[key] else Null
  }

  /** out[key] for one key, or None when diffObjects writes nothing there. */
  ghost function KeyDiff(before: Value, after: Value, key: string): Option<Value>
    requires before.Obj? && after.Obj?
    decreases before, 0
  {
    var b, a := before.fields, after.fields;
    if (key in b) == (key in a) && Get(b, key) == Get(a, key) then None
    else if BothHoldObjects(b, a, key) then
      var nested := DiffObjects(b[key], a[key]);
      if nested != map[] then Some(Obj(nested)) else None
    else Some(Obj(map["from" := Get(b, key), "to" := Get(a, key)]))
  }

  ghost function DiffObjects(before: Value, after: Value): Object
    requires before.Obj? && after.Obj?
    decreases before, 1
  {
    map k | k in before.fields.Keys + after.fields.Keys && KeyDiff(before, after, k).Some? ::
      KeyDiff(before, after, k).value
  }

  /** What the loop has written once it has seen these keys. */
  ghost function DiffOn(before: Value, after: Value, seen: set<string>): Object
    requires before.Obj? && after.Obj?
  {
    map k | k in seen && KeyDiff(before, after, k).Some? :: KeyDiff(before, after, k).value
  }

  lemma DiffStep(before: Value, after: Value, seen: set<string>, key: string)
    requires before.Obj? && after.Obj?
    ensures var d := KeyDiff(before, after, key);
      DiffOn(before, after, seen + {key}) ==
        if key in seen || d.None? then DiffOn(before, after, seen) else DiffOn(before, after, seen)[key := d.value]
  {
    hide KeyDiff;
  }

  /** diffObjects as it runs: the keys come in whatever order the map gives them. */
  method BuildDiff(before: Value, after: Value) returns (out: Object)
    requires before.Obj? && after.Obj?
    ensures out == DiffObjects(before, after)
    decreases before
  {
    hide DiffOn, DiffObjects;
    out := map[];
    var b, a := before.fields, after.fields;
    var rest := b.Keys + a.Keys;
    ghost var seen := {};
    DiffEnds(before, after);
    while rest != {}
      invariant seen + rest == b.Keys + a.Keys && seen !! rest
      invariant out == DiffOn(before, after, seen)
      decreases |rest|
    {
      var key :| key in rest;
      rest := rest - {key};
      DiffStep(before, after, seen, key);
      seen := seen + {key};
      if (key in b) == (key in a) && Get(b, key) == Get(a, key) {
        continue;
      }
      if BothHoldObjects(b, a, key) {
        var nested := BuildDiff(b[key], a[key]);
        if nested != map[] {
          out := out[key := Obj(nested)];
        }
        continue;
      }
      out := out[key := Obj(map["from" := Get(b, key), "to" := Get(a, key)])];
    }
    assert seen == b.Keys + a.Keys;
  }

  lemma DiffEnds(before: Value, after: Value)
    requires before.Obj? && after.Obj?
    ensures DiffOn(before, after, {}) == map[]
    ensures DiffOn(before, after, before.fields.Keys + after.fields.Keys) == DiffObjects(before, after)
  {
    hide KeyDiff;
  }

  /** An empty diff means nothing changed, at any depth, and nothing else does. */
  lemma {:induction false} DiffEmpty(before: Value, after: Value)
    requires before.Obj? && after.Obj?
    ensures DiffObjects(before, after) == map[] <==> before == after
    decreases before
  {
    var b, a := before.fields, after.fields;
    if DiffObjects(before, after) == map[] {
      forall k | k in b.Keys + a.Keys
        ensures k in b && k in a && b[k] == a[k]
      {
        assert k !in DiffObjects(before, after);
        assert KeyDiff(before, after, k).None?;
        if BothHoldObjects(b, a, k) {
          DiffEmpty(b[k], a[k]);
        }
      }
      assert b == a;
    } else {
      var k :| k in DiffObjects(before, after);
      assert KeyDiff(before, after, k).Some?;
    }
  }

  /** An empty patch means nothing changed, and nothing else does. */
  lemma {:induction false} PatchEmpty(before: Value, after: Value, cfg: Config)
    requires before.Obj? && after.Obj?
    ensures PatchObjects(before, after, "", cfg) == [] <==> before == after
  {
    hide ObjectEdits, PatchObjects;
    RootEdits(before, after, cfg);
    if before == after {
      NothingToEdit(before, Sorted(before.fields.Keys + after.fields.Keys), [], cfg);
      EditsOfSame(before, cfg);
    } else if PatchObjects(before, after, "", cfg) == [] {
      PlainEdits(before, after, Sorted(before.fields.Keys + after.fields.Keys), [], cfg);
      ObjectEditsOf(before, after, cfg);
      ApplyObject(before, after, [], Plain);
      WantedIsAfter(before, after, []);
    }
  }

  lemma ObjectEditsOf(b: Value, a: Value, cfg: Config)
    requires b.Obj? && a.Obj?
    ensures ObjectEdits(b, a, [], cfg) == KeysEdits(b, a, Sorted(b.fields.Keys + a.fields.Keys), [], cfg)
    ensures ObjectEdits(b, a, [], Plain) == KeysEdits(b, a, Sorted(b.fields.Keys + a.fields.Keys), [], Plain)
  {
  }

  lemma EditsOfSame(b: Value, cfg: Config)
    requires b.Obj?
    requires KeysEdits(b, b, Sorted(b.fields.Keys + b.fields.Keys), [], cfg) == []
    ensures ObjectEdits(b, b, [], cfg) == []
  {
  }

  lemma {:induction false} NothingToEdit(b: Value, keys: seq<string>, at: seq<string>, cfg: Config)
    requires b.Obj?
    ensures KeysEdits(b, b, keys, at, cfg) == []
    decreases b, 1, |keys|
  {
    hide KeyEdits;
    if keys == [] {
    } else {
      NothingToEdit(b, keys[..|keys| - 1], at, cfg);
      NothingForKey(b, keys[|keys| - 1], at, cfg);
    }
  }

  lemma {:induction false} NothingForKey(b: Value, key: string, at: seq<string>, cfg: Config)
    requires b.Obj?
    ensures KeyEdits(b, b, key, at, cfg) == []
    decreases b, 0, 0
  {
    hide Sorted, KeysEdits;
    if key in b.fields && b.fields[key].Obj? {
      var x := b.fields[key];
      NothingToEdit(x, Sorted(x.fields.Keys + x.fields.Keys), at + [key], cfg);
      assert ObjectEdits(x, x, at + [key], cfg) == [];
    }
  }

  /** A redactor changes what the edits carry, never how many there are. */
  lemma {:induction false} PlainEdits(b: Value, a: Value, keys: seq<string>, at: seq<string>, cfg: Config)
    requires b.Obj? && a.Obj?
    ensures |KeysEdits(b, a, keys, at, cfg)| == |KeysEdits(b, a, keys, at, Plain)|
    decreases b, 1, |keys|
  {
    hide KeyEdits;
    if keys == [] {
    } else {
      PlainEdits(b, a, keys[..|keys| - 1], at, cfg);
      PlainKey(b, a, keys[|keys| - 1], at, cfg);
    }
  }

  lemma {:induction false} PlainKey(b: Value, a: Value, key: string, at: seq<string>, cfg: Config)
    requires b.Obj? && a.Obj?
    ensures |KeyEdits(b, a, key, at, cfg)| == |KeyEdits(b, a, key, at, Plain)|
    decreases b, 0, 0
  {
    hide Sorted, KeysEdits;
    if BothHoldObjects(b.fields, a.fields, key) {
      var x, y := b.fields[key], a.fields[key];
      PlainEdits(x, y, Sorted(x.fields.Keys + y.fields.Keys), at + [key], cfg);
      assert |ObjectEdits(x, y, at + [key], cfg)| == |ObjectEdits(x, y, at + [key], Plain)|;
    }
  }

  /** The diff and the patch agree on whether anything changed. */
  lemma DiffAndPatchAgree(before: Value, after: Value, cfg: Config)
    requires before.Obj? && after.Obj?
    ensures DiffObjects(before, after) == map[] <==> PatchObjects(before, after, "", cfg) == []
  {
    DiffEmpty(before, after);
    PatchEmpty(before, after, cfg);
  }

  // ---------------------------------------------------------------------------------------
  // What the diff says
  // ---------------------------------------------------------------------------------------

  /** Both sides hold an object above every step of the path. */
  predicate ObjectsAbove(b: Value, a: Value, path: seq<string>) {
    path != [] && forall n :: 0 <= n < |path| ==> ObjectAt(b, path[..n]) && ObjectAt(a, path[..n])
  }

  function OrNull(v: Option<Value>): Value {
    if v.None? then Null else v.value
  }

  function FromTo(from: Value, to: Value): Value {
    Obj(map["from" := from, "to" := to])
  }

  lemma ObjectsBelow(b: Value, a: Value, key: string, rest: seq<string>)
    requires rest != [] && ObjectsAbove(b, a, [key] + rest)
    ensures b.Obj? && a.Obj? && BothHoldObjects(b.fields, a.fields, key)
    ensures ObjectsAbove(b.fields[key], a.fields[key], rest)
  {
    hide At;
    var path := [key] + rest;
    assert path[..0] == [] && path[..1] == [key] + [];
    AtStep(b, key, []);
    AtStep(a, key, []);
    assert ObjectAt(b, path[..1]) && ObjectAt(a, path[..1]) && ObjectAt(b, path[..0]) && ObjectAt(a, path[..0]);
    AtStep(b.fields[key], "", []);
    AtStep(a.fields[key], "", []);
    forall n | 0 <= n < |rest|
      ensures ObjectAt(b.fields[key], rest[..n]) && ObjectAt(a.fields[key], rest[..n])
    {
      assert path[..n + 1] == [key] + rest[..n];
      AtStep(b, key, rest[..n]);
      AtStep(a, key, rest[..n]);
      assert ObjectAt(b, path[..n + 1]) && ObjectAt(a, path[..n + 1]);
    }
  }

  lemma DiffEntry(b: Value, a: Value, key: string)
    requires b.Obj? && a.Obj?
    ensures var d := DiffObjects(b, a);
      if (key in b.fields || key in a.fields) && KeyDiff(b, a, key).Some? then key in d && d[key] == KeyDiff(b, a, key).value
      else key !in d
  {
    hide KeyDiff;
  }

  /** The entry of one key. */
  lemma EntrySays(b: Value, a: Value, key: string)
    requires b.Obj? && a.Obj?
    ensures var x, y := Child(b.fields, key), Child(a.fields, key);
      KeyDiff(b, a, key) ==
        if x == y then None
        else if BothHoldObjects(b.fields, a.fields, key) then Some(Obj(DiffObjects(x.value, y.value)))
        else Some(FromTo(OrNull(x), OrNull(y)))
  {
    if BothHoldObjects(b.fields, a.fields, key) {
      DiffEmpty(b.fields[key], a.fields[key]);
    }
  }

  lemma AtRoots(b: Value, a: Value, d: Value, key: string)
    requires b.Obj? && a.Obj? && d.Obj?
    ensures At(b, [key]) == Child(b.fields, key) && At(a, [key]) == Child(a.fields, key) && At(d, [key]) == Child(d.fields, key)
  {
    hide At;
    assert [key] + [] == [key];
    AtStep(b, key, []);
    AtStep(a, key, []);
    AtStep(d, key, []);
    if key in b.fields {
      AtStep(b.fields[key], "", []);
    }
    if key in a.fields {
      AtStep(a.fields[key], "", []);
    }
    if key in d.fields {
      AtStep(d.fields[key], "", []);
    }
  }

  lemma RootsAreObjects(b: Value, a: Value)
    requires b.Obj? && a.Obj?
    ensures ObjectAt(b, []) && ObjectAt(a, [])
  {
  }

  lemma DiffBelow(b: Value, a: Value, key: string, rest: seq<string>)
    requires b.Obj? && a.Obj? && BothHoldObjects(b.fields, a.fields, key) && rest != []
    ensures At(Obj(DiffObjects(b, a)), [key] + rest) == At(Obj(DiffObjects(b.fields[key], a.fields[key])), rest)
  {
    hide At, KeyDiff, DiffObjects;
    var x, y := b.fields[key], a.fields[key];
    AtStep(Obj(DiffObjects(b, a)), key, rest);
    DiffEntry(b, a, key);
    EntrySays(b, a, key);
    DiffEmpty(x, y);
    if x == y {
      assert rest == [rest[0]] + rest[1..];
      AtStep(Obj(map[]), rest[0], rest[1..]);
    }
  }

  /** The diff, place by place: below objects of both sides it holds nothing where the two are
      equal, the diff of two objects, and otherwise before's value under from and after's under
      to, with null for a missing key. */
  lemma {:induction false} DiffSays(b: Value, a: Value, path: seq<string>)
    requires b.Obj? && a.Obj? && ObjectsAbove(b, a, path)
    ensures var x, y, d := At(b, path), At(a, path), At(Obj(DiffObjects(b, a)), path);
      if x == y then d.None?
      else if ObjectAt(b, path) && ObjectAt(a, path) then d == Some(Obj(DiffObjects(x.value, y.value)))
      else d == Some(FromTo(OrNull(x), OrNull(y)))
    decreases |path|
  {
    hide At, KeyDiff, DiffObjects;
    var key, rest := path[0], path[1..];
    assert path == [key] + rest;
    if rest == [] {
      assert path == [key] && path[..0] == [];
      RootsAreObjects(b, a);
      AtRoots(b, a, Obj(DiffObjects(b, a)), key);
      DiffEntry(b, a, key);
      EntrySays(b, a, key);
    } else {
      ObjectsBelow(b, a, key, rest);
      DiffSays(b.fields[key], a.fields[key], rest);
      AtStep(b, key, rest);
      AtStep(a, key, rest);
      DiffBelow(b, a, key, rest);
    }
  }

  /** So before and the diff tell after: what stands under to where there is an entry, and what
      before holds where there is none, up to a missing key read as null. */
  lemma DiffTellsAfter(b: Value, a: Value, path: seq<string>)
    requires b.Obj? && a.Obj? && ObjectsAbove(b, a, path) && !(ObjectAt(b, path) && ObjectAt(a, path))
    ensures var d := At(Obj(DiffObjects(b, a)), path);
      && (d.None? ==> OrNull(At(a, path)) == OrNull(At(b, path)))
      && (d.Some? ==> At(Obj(DiffObjects(b, a)), path + ["to"]) == Some(OrNull(At(a, path))))
      && (d.Some? ==> At(Obj(DiffObjects(b, a)), path + ["from"]) == Some(OrNull(At(b, path))))
  {
    hide DiffObjects, ObjectsAbove, At;
    DiffSays(b, a, path);
    var diff := Obj(DiffObjects(b, a));
    if At(diff, path).Some? {
      AtSnoc(diff, path, "to");
      AtSnoc(diff, path, "from");
    }
  }

  lemma {:induction false} AtSnoc(v: Value, path: seq<string>, key: string)
    requires At(v, path).Some? && At(v, path).value.Obj?
    ensures At(v, path + [key]) == Child(At(v, path).value.fields, key)
    decreases |path|
  {
    if path == [] {
      assert [] + [key] == [key];
      AtRoots(v, v, v, key);
    } else {
      AtSnoc(v.fields[path[0]], path[1..], key);
      assert (path + [key])[1..] == path[1..] + [key];
    }
  }
}
