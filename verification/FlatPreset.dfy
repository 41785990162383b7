/** preset/flat.go, Apply: nested objects first, then the keys that hold none. */
module FlatPreset {
  import opened GoBytes
  import opened Keys
  import opened Tree
  import opened TreePaths
  import opened Flatten
  import opened FlatPlaces

  /** A key that holds no object, over what is written already. */
  function AddScalar(out: Object, key: string, value: Value): Object {
    if key in out then out[Moved(key) := value] else out[key := value]
  }

  method Nested(event: Value, out: Output)
    requires event.Obj? && out.fields == map[]
    modifies out
    ensures Adds(map[], out.fields, Part(event, NestedKeys(event)), [])
  {
    hide Join;
    var rest := NestedKeys(event);
    ghost var all := rest;
    NothingYet(event, []);
    while rest != {}
      invariant rest <= all
      invariant Adds(map[], out.fields, Part(event, all - rest), [])
      decreases |rest|
    {
      hide Adds, Part;
      var key :| key in rest;
      ghost var before := out.fields;
      JoinOne('.', key);
      out.Flatten(key, event.fields[key], [key]);
      assert [] + [key] == [key];
      AddsPart(map[], before, out.fields, event, all - rest, key, []);
      assert all - rest + {key} == all - (rest - {key});
      rest := rest - {key};
    }
    assert all - {} == all;
  }

  /** The leaves below the nested keys are the leaves of the event two keys down or more. */
  lemma NestedLeaf(event: Value, ks: seq<string>)
    requires event.Obj?
    ensures Leaf(Part(event, NestedKeys(event)), ks).Some? <==> |ks| >= 2 && IsLeaf(event, ks)
    ensures |ks| >= 2 && IsLeaf(event, ks) ==> Leaf(Part(event, NestedKeys(event)), ks) == Leaf(event, ks)
  {
    hide Leaf;
    var part := Part(event, NestedKeys(event));
    LeafStep(part, ks);
    LeafStep(event, ks);
    if ks != [] && ks[0] in event.fields {
      LeafStep(event.fields[ks[0]], ks[1..]);
    }
  }

  ghost function PathOf(event: Value, p: string, x: Value): (ks: seq<string>)
    requires event.Obj? && Writes(Part(event, NestedKeys(event)), [], p, x)
    ensures |ks| >= 2 && Leaf(event, ks) == Some(x) && Join('.', ks) == p
  {
    hide Join, Leaf, Part, NestedKeys;
    var ks :| Leaf(Part(event, NestedKeys(event)), ks) == Some(x) && [] + ks != [] && Join('.', [] + ks) == p;
    assert [] + ks == ks;
    NestedLeaf(event, ks);
    ks
  }

  ghost function BaseOf(event: Value, out: Object): (base: Place)
    requires event.Obj? && Adds(map[], out, Part(event, NestedKeys(event)), [])
    ensures IsBase(event, base) && out == Written(event, base)
  {
    hide Join, Leaf, Writes, Part, NestedKeys, Written, IsBase;
    var base := map p | p in out :: PathOf(event, p, out[p]);
    BaseIsAll(event, out, base);
    BaseIsWritten(event, out, base);
    base
  }

  lemma BaseIsWritten(event: Value, out: Object, base: Place)
    requires base.Keys == out.Keys && forall p :: p in out ==> Leaf(event, base[p]) == Some(out[p])
    ensures out == Written(event, base)
  {
    hide Leaf;
  }

  lemma BaseIsAll(event: Value, out: Object, base: Place)
    requires event.Obj? && Adds(map[], out, Part(event, NestedKeys(event)), []) && base.Keys == out.Keys
    requires forall p :: p in base ==> |base[p]| >= 2 && IsLeaf(event, base[p]) && Join('.', base[p]) == p
    ensures IsBase(event, base)
  {
    hide Join, Leaf, Part;
    forall ks | |ks| >= 2 && IsLeaf(event, ks)
      ensures Join('.', ks) in base
    {
      NestedLeaf(event, ks);
      assert [] + ks == ks;
      assert Writes(Part(event, NestedKeys(event)), [], Join('.', ks), Leaf(event, ks).value);
    }
  }

  lemma WrittenPut(event: Value, place: Place, key: string)
    requires event.Obj? && key in ScalarKeys(event)
    requires forall p :: p in place ==> IsLeaf(event, place[p])
    ensures Written(event, Put(place, key)) == AddScalar(Written(event, place), key, event.fields[key])
  {
    hide Moved, Leaf;
    ScalarLeaf(event, key);
  }

  /** A step of the second loop, on the values and on the placement. */
  lemma PlacedStep(event: Value, base: Place, order: seq<string>, key: string)
    requires event.Obj? && IsBase(event, base) && key in ScalarKeys(event)
    requires Elems(order) <= ScalarKeys(event)
    ensures Written(event, Placed(base, order + [key])) == AddScalar(Written(event, Placed(base, order)), key, event.fields[key])
  {
    hide Placed, IsBase, ScalarKeys, Elems, Written, AddScalar, Put, IsLeaf;
    PlacedLeaves(event, base, order);
    PlacedSnoc(base, order, key);
    WrittenPut(event, Placed(base, order), key);
  }

  /** The second loop over the keys that hold no object. */
  method ScalarsLast(event: Value, out: Output, ghost base: Place) returns (ghost order: seq<string>)
    requires event.Obj? && IsBase(event, base) && out.fields == Written(event, base)
    modifies out
    ensures IsOrder(event, order) && out.fields == Written(event, Placed(base, order))
  {
    hide IsBase, Placed, Written, Distinct, AddScalar, Elems;
    order := [];
    PlacedSnoc(base, [], "");
    ElemsSnoc([], "");
    var rest := ScalarKeys(event);
    while rest != {}
      invariant rest <= ScalarKeys(event)
      invariant Distinct(order) && Elems(order) == ScalarKeys(event) - rest
      invariant out.fields == Written(event, Placed(base, order))
      decreases |rest|
    {
      hide ScalarKeys;
      var key :| key in rest;
      NotYet(order, key);
      PlacedStep(event, base, order, key);
      ElemsSnoc(order, key);
      ScalarLeaf(event, key);
      out.fields := AddScalar(out.fields, key, event.fields[key]);
      order := order + [key];
      rest := rest - {key};
    }
  }

  lemma NotYet(order: seq<string>, key: string)
    ensures key in order <==> key in Elems(order)
  {
  }

  /** The output is what Placed gives for some order of the two loops. */
  method Apply(event: Value) returns (out: Output)
    requires event.Obj?
    ensures IsOutput(event, out.fields)
  {
    hide *;
    out := new Output();
    Nested(event, out);
    ghost var base := BaseOf(event, out.fields);
    ghost var order := ScalarsLast(event, out, base);
    OutputOf(event, base, order);
  }

  lemma OutputOf(event: Value, base: Place, order: seq<string>)
    requires event.Obj? && IsBase(event, base) && IsOrder(event, order)
    ensures IsOutput(event, Written(event, Placed(base, order)))
  {
    hide IsBase, IsOrder, Written, Placed;
  }

  // ---------------------------------------------------------------------------------------
  // Without dots
  // ---------------------------------------------------------------------------------------

  /** In an event without a dotted key no two names meet. */
  lemma DotFreeApart(event: Value, base: Place)
    requires event.Obj? && DotFree(event) && IsBase(event, base)
    ensures Apart(event) && forall k :: k in ScalarKeys(event) ==> k !in base
  {
    hide Join, Split, DotFree, IsLeaf, Leaf, IsBase, Moved, ScalarKeys;
    forall ks, js | |ks| >= 2 && |js| >= 2 && IsLeaf(event, ks) && IsLeaf(event, js) && Join('.', ks) == Join('.', js)
      ensures ks == js
    {
      SplitsBack(event, ks);
      SplitsBack(event, js);
    }
    forall k | k in ScalarKeys(event)
      ensures k !in base && !Taken(event, k)
    {
      TakenIsBase(event, base, k);
      if ks :| |ks| >= 2 && IsLeaf(event, ks) && Join('.', ks) == k {
        SplitsBack(event, ks);
        ScalarLeaf(event, k);
        PlainKey(event, k);
      }
    }
  }

  lemma SplitsBack(event: Value, ks: seq<string>)
    requires event.Obj? && DotFree(event) && IsLeaf(event, ks)
    ensures ks != [] && Split('.', Join('.', ks)) == ks
  {
    LeafSplits(event, ks);
  }

  lemma PlainKey(event: Value, k: string)
    requires event.Obj? && DotFree(event) && k in event.fields
    ensures Split('.', k) == [k]
  {
    SplitWithout('.', k);
  }

  lemma KeptAt(event: Value, place: Place, ks: seq<string>)
    requires KeepsAll(event, place) && IsLeaf(event, ks)
    ensures Has(place, ks)
  {
  }

  lemma PlainPlaces(event: Value, base: Place, order: seq<string>)
    requires event.Obj? && DotFree(event) && IsBase(event, base) && IsOrder(event, order)
    ensures forall p :: p in Placed(base, order) ==>
      var ks := Placed(base, order)[p];
      IsLeaf(event, ks) && ks != [] && Join('.', ks) == p
  {
    hide Join, DotFree, Leaf, Placed, Apart, ScalarKeys, Distinct, IsLeaf;
    DotFreeApart(event, base);
    AllSettle(event, base, order);
    PlacedLeaves(event, base, order);
    var place := Placed(base, order);
    forall p | p in place
      ensures place[p] != [] && Join('.', place[p]) == p
    {
      if p !in base {
        var k := place[p][0];
        assert place[p] == [k];
        NotYet(order, k);
        JoinOne('.', k);
      }
    }
  }

  lemma PlainWritten(event: Value, base: Place, order: seq<string>)
    requires event.Obj? && DotFree(event) && IsBase(event, base) && IsOrder(event, order)
    ensures Adds(map[], Written(event, Placed(base, order)), event, [])
  {
    hide Join, DotFree, Leaf, Placed, IsOrder, Apart, ScalarKeys, KeepsAll;
    var place := Placed(base, order);
    DotFreeApart(event, base);
    PlainPlaces(event, base, order);
    SettledKeeps(event, base, order);
    forall p | p in place
      ensures Writes(event, [], p, Leaf(event, place[p]).value)
    {
      assert [] + place[p] == place[p];
    }
    forall p, x | Writes(event, [], p, x)
      ensures p in Written(event, place)
    {
      var ks :| Leaf(event, ks) == Some(x) && [] + ks != [] && Join('.', [] + ks) == p;
      assert [] + ks == ks;
      KeptAt(event, place, ks);
    }
  }

  /** Without a dotted key in the event the output holds each leaf under its dotted key, and
      nothing else, whatever the order. */
  lemma PlainOutput(event: Value, fields: Object)
    requires event.Obj? && DotFree(event) && IsOutput(event, fields)
    ensures Adds(map[], fields, event, [])
  {
    hide DotFree, Adds, IsBase, IsOrder, Written, Placed;
    var base, order :| IsBase(event, base) && IsOrder(event, order) && fields == Written(event, Placed(base, order));
    PlainWritten(event, base, order);
  }
}
