/**
 preset/flat.go and the payload of preset/gcp.go: an event as dotted keys, and the tree built
 again from them. Go ranges over a map in any order, so each loop here takes any key.
 */
module Flatten {
  import opened GoBytes
  import opened Tree
  import opened TreePaths

  /** A leaf of v, which stands at the keys at, is written under the dotted key p. */
  ghost predicate Writes(v: Value, at: seq<string>, p: string, x: Value) {
    exists ks :: Leaf(v, ks) == Some(x) && at + ks != [] && Join('.', at + ks) == p
  }

  /** r is out with the leaves of v written into it; where two share a dotted key, one of them. */
  ghost predicate Adds(out: Object, r: Object, v: Value, at: seq<string>) {
    && (forall p :: p in out ==> p in r)
    && (forall p, x :: Writes(v, at, p, x) ==> p in r)
    && (forall p :: p in r ==> Writes(v, at, p, r[p]) || (p in out && r[p] == out[p] && forall x :: !Writes(v, at, p, x)))
  }

  /** The part of an object that a loop over its keys has handled. */
  function Part(v: Value, keys: set<string>): Value
    requires v.Obj?
  {
    Obj(map k | k in v.fields && k in keys :: v.fields[k])
  }

  lemma WritesPart(v: Value, keys: set<string>, key: string, at: seq<string>, p: string, x: Value)
    requires v.Obj? && key in v.fields
    ensures Writes(Part(v, keys + {key}), at, p, x) <==>
      Writes(Part(v, keys), at, p, x) || Writes(v.fields[key], at + [key], p, x)
  {
    hide Join, Leaf, Part;
    if ks :| Leaf(Part(v, keys + {key}), ks) == Some(x) && at + ks != [] && Join('.', at + ks) == p {
      LeafPart(v, keys, key, ks);
      assert ks[0] == key ==> at + ks == (at + [key]) + ks[1..];
    }
    if ks :| Leaf(Part(v, keys), ks) == Some(x) && at + ks != [] && Join('.', at + ks) == p {
      LeafPart(v, keys, key, ks);
    }
    if ks :| Leaf(v.fields[key], ks) == Some(x) && Join('.', (at + [key]) + ks) == p {
      LeafPart(v, keys, key, [key] + ks);
      assert ([key] + ks)[1..] == ks && at + ([key] + ks) == (at + [key]) + ks;
    }
  }

  lemma LeafPart(v: Value, keys: set<string>, key: string, ks: seq<string>)
    requires v.Obj? && key in v.fields
    ensures ks != [] && ks[0] == key ==> Leaf(Part(v, keys + {key}), ks) == Leaf(v.fields[key], ks[1..])
    ensures !(ks != [] && ks[0] == key) ==> Leaf(Part(v, keys + {key}), ks) == Leaf(Part(v, keys), ks)
    ensures Leaf(Part(v, keys), ks).Some? ==> ks != [] && ks[0] in keys && Leaf(Part(v, keys + {key}), ks) == Leaf(Part(v, keys), ks)
    ensures Leaf(Part(v, keys), []) == None
  {
  }

  lemma AddsPart(out: Object, mid: Object, r: Object, v: Value, keys: set<string>, key: string, at: seq<string>)
    requires v.Obj? && key in v.fields
    requires Adds(out, mid, Part(v, keys), at) && Adds(mid, r, v.fields[key], at + [key])
    ensures Adds(out, r, Part(v, keys + {key}), at)
  {
    hide Writes;
    forall p, x
      ensures Writes(Part(v, keys + {key}), at, p, x) <==>
        Writes(Part(v, keys), at, p, x) || Writes(v.fields[key], at + [key], p, x)
    {
      WritesPart(v, keys, key, at, p, x);
    }
  }

  /** The map that Apply fills. */
  class Output {
    var fields: Object

    constructor ()
      ensures fields == map[]
    {
      fields := map[];
    }

    /** flatten, for a value at the keys at, whose dotted form is the prefix. */
    method Flatten(prefix: string, value: Value, ghost at: seq<string>)
      requires at != [] && prefix == Join('.', at)
      modifies this
      ensures Adds(old(fields), fields, value, at)
      decreases value
    {
      hide Join;
      if !value.Obj? {
        WritesScalar(value, at);
        fields := fields[prefix := value];
        return;
      }
      var rest := value.fields.Keys;
      NothingYet(value, at);
      while rest != {}
        invariant rest <= value.fields.Keys
        invariant Adds(old(fields), fields, Part(value, value.fields.Keys - rest), at)
        decreases |rest|
      {
        hide Adds, Part;
        var key :| key in rest;
        ghost var before := fields;
        JoinSnoc('.', at, key);
        Flatten(prefix + "." + key, value.fields[key], at + [key]);
        AddsPart(old(fields), before, fields, value, value.fields.Keys - rest, key, at);
        assert value.fields.Keys - rest + {key} == value.fields.Keys - (rest - {key});
        rest := rest - {key};
      }
      assert Part(value, value.fields.Keys - {}) == value;
    }

    /** The first loop of the gcp payload: every key of the event, flattened. */
    method FlattenAll(event: Value)
      requires event.Obj? && fields == map[]
      modifies this
      ensures Adds(map[], fields, event, [])
    {
      hide Join;
      var rest := event.fields.Keys;
      NothingYet(event, []);
      while rest != {}
        invariant rest <= event.fields.Keys
        invariant Adds(map[], fields, Part(event, event.fields.Keys - rest), [])
        decreases |rest|
      {
        hide Adds, Part;
        var key :| key in rest;
        ghost var before := fields;
        JoinOne('.', key);
        Flatten(key, event.fields[key], [key]);
        assert [] + [key] == [key];
        AddsPart(map[], before, fields, event, event.fields.Keys - rest, key, []);
        assert event.fields.Keys - rest + {key} == event.fields.Keys - (rest - {key});
        rest := rest - {key};
      }
      assert Part(event, event.fields.Keys - {}) == event;
    }
  }

  lemma JoinOne(sep: char, piece: string)
    ensures Join(sep, [piece]) == piece
  {
  }

  lemma WritesScalar(v: Value, at: seq<string>)
    requires !v.Obj? && at != []
    ensures forall p, x :: Writes(v, at, p, x) <==> p == Join('.', at) && x == v
  {
    assert at + [] == at;
    assert Leaf(v, []) == Some(v);
    forall p, x | Writes(v, at, p, x)
      ensures p == Join('.', at) && x == v
    {
      var ks :| Leaf(v, ks) == Some(x) && at + ks != [] && Join('.', at + ks) == p;
      assert ks == [];
    }
  }

  lemma NothingYet(v: Value, at: seq<string>)
    requires v.Obj?
    ensures forall p, x :: !Writes(Part(v, {}), at, p, x)
  {
  }

  // ---------------------------------------------------------------------------------------
  // The payload
  // ---------------------------------------------------------------------------------------

  /** The payload holds exactly the entries of flat written so far, each at the keys its
      dotted key splits into. */
  ghost predicate Holds(payload: Object, flat: Object, done: set<string>) {
    forall ks :: Leaf(Obj(payload), ks) == Entry(flat, done, ks)
  }

  function Entry(flat: Object, done: set<string>, ks: seq<string>): Option<Value> {
    if ks != [] && Join('.', ks) in flat && Join('.', ks) in done && Split('.', Join('.', ks)) == ks
    then Some(flat[Join('.', ks)]) else None
  }

  /** No dotted key continues another. */
  ghost predicate PrefixFree(flat: Object) {
    forall p, q :: p in flat && q in flat && Split('.', p) <= Split('.', q) ==> p == q
  }

  ghost predicate Scalars(flat: Object) {
    forall p :: p in flat ==> !flat[p].Obj?
  }

  lemma SetHolds(payload: Object, flat: Object, done: set<string>, p: string)
    requires Scalars(flat) && PrefixFree(flat) && p in flat && Holds(payload, flat, done)
    ensures Holds(SetPath(payload, Split('.', p), flat[p]), flat, done + {p})
  {
    hide Join, Split, Leaf, SetPath;
    var ks := Split('.', p);
    forall js
      ensures Leaf(Obj(SetPath(payload, ks, flat[p])), js) == Entry(flat, done + {p}, js)
    {
      SetLeaf(payload, ks, flat[p], js);
      JoinSplit('.', p);
    }
  }

  /** The second loop of the gcp payload: setPath of every entry that is not skipped. */
  method Rebuild(flat: Object, skip: set<string>) returns (payload: Object)
    requires Scalars(flat)
    ensures SolidBelow(payload) && DotFree(Obj(payload))
    ensures PrefixFree(flat) ==> Holds(payload, flat, flat.Keys - skip)
  {
    hide Split, SetPath, PrefixFree, Holds, DotFree, SolidBelow;
    payload := map[];
    EmptyPayload(flat);
    var rest := flat.Keys - skip;
    assert flat.Keys - skip - rest == {};
    while rest != {}
      invariant rest <= flat.Keys - skip
      invariant SolidBelow(payload) && DotFree(Obj(payload))
      invariant PrefixFree(flat) ==> Holds(payload, flat, flat.Keys - skip - rest)
      decreases |rest|
    {
      var path :| path in rest;
      SetKeepsSolid(payload, Split('.', path), flat[path]);
      SetKeepsDotFree(payload, Split('.', path), flat[path]);
      if PrefixFree(flat) {
        SetHolds(payload, flat, flat.Keys - skip - rest, path);
        assert flat.Keys - skip - rest + {path} == flat.Keys - skip - (rest - {path});
      }
      payload := SetPath(payload, Split('.', path), flat[path]);
      rest := rest - {path};
    }
    assert flat.Keys - skip - {} == flat.Keys - skip;
  }

  lemma EmptyPayload(flat: Object)
    ensures SolidBelow(map[]) && DotFree(Obj(map[])) && Holds(map[], flat, {})
  {
  }

  // ---------------------------------------------------------------------------------------
  // What the payload is
  // ---------------------------------------------------------------------------------------

  /** The dotted form of an event whose keys hold no dot: each leaf under its own key. */
  lemma FlatLeaf(event: Value, flat: Object, ks: seq<string>)
    requires event.Obj? && DotFree(event) && Adds(map[], flat, event, [])
    ensures Leaf(event, ks) == Entry(flat, flat.Keys, ks)
  {
    hide Leaf, Join, Split, DotFree;
    if Leaf(event, ks).Some? {
      LeafSplits(event, ks);
      assert [] + ks == ks;
      assert Writes(event, [], Join('.', ks), Leaf(event, ks).value);
    }
    if Entry(flat, flat.Keys, ks).Some? {
      var p := Join('.', ks);
      assert Writes(event, [], p, flat[p]);
      var js :| Leaf(event, js) == Some(flat[p]) && [] + js != [] && Join('.', [] + js) == p;
      assert [] + js == js;
      LeafSplits(event, js);
    }
  }

  lemma LeafSplits(event: Value, ks: seq<string>)
    requires event.Obj? && DotFree(event) && Leaf(event, ks).Some?
    ensures ks != [] && Split('.', Join('.', ks)) == ks
  {
    LeafKeysDotFree(event, ks);
    SplitJoin('.', ks);
  }

  lemma FlatIsPrefixFree(event: Value, flat: Object)
    requires event.Obj? && DotFree(event) && Adds(map[], flat, event, [])
    ensures PrefixFree(flat) && Scalars(flat)
  {
    hide Join, Split, DotFree;
    forall p, q | p in flat && q in flat && Split('.', p) <= Split('.', q)
      ensures p == q
    {
      JoinSplit('.', p);
      JoinSplit('.', q);
      FlatLeaf(event, flat, Split('.', p));
      FlatLeaf(event, flat, Split('.', q));
      LeavesPrefixFree(event, Split('.', p), Split('.', q));
    }
    ScalarsOf(event, flat);
  }

  lemma ScalarsOf(event: Value, flat: Object)
    requires Adds(map[], flat, event, [])
    ensures Scalars(flat)
  {
    forall p | p in flat
      ensures !flat[p].Obj?
    {
      assert Writes(event, [], p, flat[p]);
      var ks :| Leaf(event, ks) == Some(flat[p]) && [] + ks != [] && Join('.', [] + ks) == p;
      LeafIsScalar(event, ks);
    }
  }

  lemma {:induction false} LeafIsScalar(v: Value, ks: seq<string>)
    ensures Leaf(v, ks).Some? ==> !Leaf(v, ks).value.Obj?
    decreases |ks|
  {
    if ks == [] || !v.Obj? || ks[0] !in v.fields {
    } else {
      LeafIsScalar(v.fields[ks[0]], ks[1..]);
    }
  }

  function Unskipped(event: Value, skip: set<string>, ks: seq<string>): Option<Value> {
    if ks != [] && Join('.', ks) in skip then None else Leaf(event, ks)
  }

  /** flatten and then setPath, in whatever order the two loops take the keys. Whatever the
      event, the payload has no empty object and no dotted key. When the event has no dotted
      key, the payload's leaves are the event's, less the skipped ones. */
  method Payload(event: Value, skip: set<string>) returns (payload: Object)
    requires event.Obj?
    ensures SolidBelow(payload) && DotFree(Obj(payload))
    ensures DotFree(event) ==> forall ks :: Leaf(Obj(payload), ks) == Unskipped(event, skip, ks)
  {
    hide DotFree, SolidBelow, Holds, Adds, PrefixFree, Leaf, Join;
    var out := new Output();
    out.FlattenAll(event);
    ScalarsOf(event, out.fields);
    payload := Rebuild(out.fields, skip);
    if DotFree(event) {
      FlatIsPrefixFree(event, out.fields);
      PayloadLeaves(event, out.fields, skip, payload);
    }
  }

  lemma PayloadLeaves(event: Value, flat: Object, skip: set<string>, payload: Object)
    requires event.Obj? && DotFree(event) && Adds(map[], flat, event, []) && Holds(payload, flat, flat.Keys - skip)
    ensures forall ks :: Leaf(Obj(payload), ks) == Unskipped(event, skip, ks)
  {
    hide DotFree, Adds, Leaf, Join, Split;
    forall ks
      ensures Leaf(Obj(payload), ks) == Unskipped(event, skip, ks)
    {
      FlatLeaf(event, flat, ks);
    }
  }

  /** The round trip, exactly: with nothing skipped, an object with the leaves and the shape
      that Payload promises is the event if and only if the event has no dotted key and no
      empty object below the top. */
  lemma PayloadIsEvent(event: Value, payload: Object)
    requires event.Obj? && SolidBelow(payload) && DotFree(Obj(payload))
    requires DotFree(event) ==> forall ks :: Leaf(Obj(payload), ks) == Leaf(event, ks)
    ensures Obj(payload) == event <==> DotFree(event) && SolidBelow(event.fields)
  {
    hide DotFree, SolidBelow, Leaf;
    if DotFree(event) && SolidBelow(event.fields) {
      LeavesDetermine(Obj(payload), event);
    }
  }

  /** setPath of every flattened path rebuilds the event. */
  method RebuildEvent(event: Value) returns (payload: Object)
    requires event.Obj?
    ensures Obj(payload) == event <==> DotFree(event) && SolidBelow(event.fields)
  {
    hide DotFree, SolidBelow, Leaf, Join;
    payload := Payload(event, {});
    PayloadIsEvent(event, payload);
  }
}
