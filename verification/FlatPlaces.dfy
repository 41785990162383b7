/**
 preset/flat.go: under which dotted key each leaf of an event ends, whatever the order in which
 Go ranges over the maps, and when every leaf keeps a key of its own.
 */
module FlatPlaces {
  import opened GoBytes
  import opened Keys
  import opened Tree
  import opened TreePaths

  function Moved(key: string): string {
    "wlog.fields." + key
  }

  /** The top-level keys that hold an object. */
  function NestedKeys(event: Value): set<string>
    requires event.Obj?
  {
    set k | k in event.fields && event.fields[k].Obj?
  }

  /** The path of the leaf that each key of the output holds. */
  type Place = map<string, seq<string>>

  ghost predicate IsLeaf(event: Value, ks: seq<string>) {
    Leaf(event, ks).Some?
  }

  /** The top-level keys of the second loop. */
  function ScalarKeys(event: Value): set<string>
    requires event.Obj?
  {
    event.fields.Keys - NestedKeys(event)
  }

  /** What the first loop may leave: each dotted key of a nested leaf, and one such leaf under it. */
  ghost predicate IsBase(event: Value, base: Place) {
    && (forall p :: p in base ==> |base[p]| >= 2 && IsLeaf(event, base[p]) && Join('.', base[p]) == p)
    && (forall ks :: |ks| >= 2 && IsLeaf(event, ks) ==> Join('.', ks) in base)
  }

  /** What the second loop may visit. */
  ghost predicate IsOrder(event: Value, order: seq<string>)
    requires event.Obj?
  {
    Distinct(order) && Elems(order) == ScalarKeys(event)
  }

  /** One key of the second loop. */
  function Put(place: Place, key: string): Place {
    place[(if key in place then Moved(key) else key) := [key]]
  }

  /** The second loop over the keys in this order. */
  function Placed(base: Place, order: seq<string>): Place {
    if order == [] then base else Put(Placed(base, order[..|order| - 1]), order[|order| - 1])
  }

  function Written(event: Value, place: Place): Object {
    map p | p in place && Leaf(event, place[p]).Some? :: Leaf(event, place[p]).value
  }

  /** What Apply may return. */
  ghost predicate IsOutput(event: Value, fields: Object)
    requires event.Obj?
  {
    exists base, order :: IsBase(event, base) && IsOrder(event, order) && fields == Written(event, Placed(base, order))
  }

  /** Every leaf of the event has a key of its own. */
  ghost predicate KeepsAll(event: Value, place: Place) {
    forall ks :: IsLeaf(event, ks) ==> Has(place, ks)
  }

  predicate Has(place: Place, ks: seq<string>) {
    exists p :: p in place && place[p] == ks
  }

  /** A nested leaf has this dotted key. */
  ghost predicate Taken(event: Value, p: string) {
    exists ks :: |ks| >= 2 && IsLeaf(event, ks) && Join('.', ks) == p
  }

  /** No two nested leaves share a dotted key, and the name a taken key moves to is neither a key
      of the event that holds no object nor the dotted key of a nested leaf. */
  ghost predicate Apart(event: Value)
    requires event.Obj?
  {
    && NestedApart(event)
    && forall k :: k in ScalarKeys(event) && Taken(event, k) ==> Moved(k) !in ScalarKeys(event) && !Taken(event, Moved(k))
  }

  ghost predicate NestedApart(event: Value) {
    forall ks, js :: |ks| >= 2 && |js| >= 2 && IsLeaf(event, ks) && IsLeaf(event, js) && Join('.', ks) == Join('.', js) ==> ks == js
  }

  lemma TakenIsBase(event: Value, base: Place, p: string)
    requires IsBase(event, base)
    ensures Taken(event, p) <==> p in base
  {
    hide Join;
    if p in base {
      assert IsLeaf(event, base[p]);
    }
  }

  lemma PlacedSnoc(base: Place, order: seq<string>, key: string)
    ensures Placed(base, []) == base && Placed(base, order + [key]) == Put(Placed(base, order), key)
  {
    assert (order + [key])[..|order|] == order;
  }

  lemma LeafStep(v: Value, ks: seq<string>)
    ensures Leaf(v, ks) ==
      if ks == [] then if v.Obj? then None else Some(v)
      else if v.Obj? && ks[0] in v.fields then Leaf(v.fields[ks[0]], ks[1..]) else None
  {
  }

  lemma ScalarLeaf(event: Value, key: string)
    requires event.Obj?
    ensures key in ScalarKeys(event) <==> IsLeaf(event, [key])
    ensures key in ScalarKeys(event) ==> key in event.fields && Leaf(event, [key]) == Some(event.fields[key])
  {
    hide Leaf;
    assert [key][1..] == [];
    LeafStep(event, [key]);
    if key in event.fields {
      LeafStep(event.fields[key], []);
    }
  }

  lemma ElemsSnoc(order: seq<string>, key: string)
    ensures Distinct([]) && Elems([]) == {} && Elems(order + [key]) == Elems(order) + {key}
    ensures Distinct(order + [key]) <==> Distinct(order) && key !in order
  {
    var next := order + [key];
    assert Elems(next) == Elems(order) + {key};
    assert next[|order|] == key && forall i :: 0 <= i < |order| ==> next[i] == order[i];
    if Distinct(next) {
      forall i, j | 0 <= i < j < |order|
        ensures order[i] != order[j]
      {
        assert next[i] != next[j];
      }
      forall i | 0 <= i < |order|
        ensures order[i] != key
      {
        assert next[i] != next[|order|];
      }
    }
  }

  /** Every order is empty or ends in a key. */
  lemma Fronts(order: seq<string>) returns (front: seq<string>, key: string)
    requires order != []
    ensures order == front + [key] && |front| == |order| - 1
  {
    front, key := order[..|order| - 1], order[|order| - 1];
  }

  lemma {:induction false} PlacedLeaves(event: Value, base: Place, order: seq<string>)
    requires event.Obj? && IsBase(event, base) && Elems(order) <= ScalarKeys(event)
    ensures forall p :: p in Placed(base, order) ==> IsLeaf(event, Placed(base, order)[p])
    decreases |order|
  {
    hide Join, Placed, Moved, IsLeaf, ScalarKeys;
    if order == [] {
      PlacedSnoc(base, [], "");
    } else {
      var front, key := Fronts(order);
      ElemsSnoc(front, key);
      PlacedLeaves(event, base, front);
      PlacedSnoc(base, front, key);
      ScalarLeaf(event, key);
    }
  }

  // ---------------------------------------------------------------------------------------
  // When no leaf is lost
  // ---------------------------------------------------------------------------------------

  function Target(base: Place, key: string): string {
    if key in base then Moved(key) else key
  }

  /** Some visited key has this target. */
  predicate Visited(base: Place, order: seq<string>, p: string) {
    exists k :: k in order && Target(base, k) == p
  }

  /** Each visited key is at its target, and the base where no key went. */
  ghost predicate Settled(base: Place, order: seq<string>, place: Place) {
    && (forall p :: p in base ==> p in place)
    && (forall k :: k in order ==> Target(base, k) in place && place[Target(base, k)] == [k])
    && (forall p :: p in place ==> Visited(base, order, p) || (p in base && place[p] == base[p]))
  }

  /** No taken key moves to the name of another key that is not taken. */
  ghost predicate Steady(event: Value)
    requires event.Obj?
  {
    forall k :: k in ScalarKeys(event) && Taken(event, k) && Moved(k) in ScalarKeys(event) ==> Taken(event, Moved(k))
  }

  lemma MovedApart(k: string, j: string)
    ensures |Moved(k)| == |k| + 12 && (Moved(k) == Moved(j) ==> k == j)
  {
    assert |"wlog.fields."| == 12;
    assert Moved(k)[|"wlog.fields."|..] == k && Moved(j)[|"wlog.fields."|..] == j;
  }

  /** In such an event every key goes to its target, in every order. */
  lemma {:induction false} AllSettle(event: Value, base: Place, order: seq<string>)
    requires event.Obj? && Steady(event) && IsBase(event, base)
    requires Distinct(order) && Elems(order) <= ScalarKeys(event)
    ensures Settled(base, order, Placed(base, order))
    decreases |order|
  {
    hide Placed, IsBase, Settled, Steady, Distinct, ScalarKeys, Target;
    if order == [] {
      PlacedSnoc(base, [], "");
      NothingVisited(base);
    } else {
      var front, key := Fronts(order);
      ElemsSnoc(front, key);
      AllSettle(event, base, front);
      PlacedSnoc(base, front, key);
      forall j | j in front
        ensures Target(base, j) != Target(base, key) && (key !in base ==> Target(base, j) != key)
      {
        assert j in Elems(front);
        TargetsApart(event, base, j, key);
      }
      PutSettles(base, front, Placed(base, front), key);
    }
  }

  lemma NothingVisited(base: Place)
    ensures Settled(base, [], base)
  {
  }

  lemma PutSettles(base: Place, order: seq<string>, place: Place, key: string)
    requires Settled(base, order, place)
    requires forall j :: j in order ==> Target(base, j) != Target(base, key) && (key !in base ==> Target(base, j) != key)
    ensures Settled(base, order + [key], Put(place, key))
  {
    hide Moved;
    var next := Put(place, key);
    assert key in place <==> key in base;
    assert next == place[Target(base, key) := [key]];
    forall k | k in order + [key]
      ensures Target(base, k) in next && next[Target(base, k)] == [k]
    {
    }
    forall p | p in next
      ensures Visited(base, order + [key], p) || (p in base && next[p] == base[p])
    {
      if p == Target(base, key) {
        assert key in order + [key];
      } else if Visited(base, order, p) {
        var k :| k in order && Target(base, k) == p;
        assert k in order + [key];
      }
    }
  }

  lemma TargetsApart(event: Value, base: Place, j: string, k: string)
    requires event.Obj? && Steady(event) && IsBase(event, base) && j in ScalarKeys(event) && k in ScalarKeys(event)
    ensures j != k ==> Target(base, j) != Target(base, k) && (k !in base ==> Target(base, j) != k)
  {
    hide IsBase, Taken, Moved, ScalarKeys;
    TakenIsBase(event, base, j);
    TakenIsBase(event, base, k);
    TakenIsBase(event, base, Moved(j));
    TakenIsBase(event, base, Moved(k));
    MovedApart(j, k);
  }

  /** Where nothing collides at all, no key goes to the name of a nested leaf. */
  lemma TargetsFree(event: Value, base: Place, k: string)
    requires event.Obj? && Apart(event) && IsBase(event, base) && k in ScalarKeys(event)
    ensures Target(base, k) !in base && Steady(event)
  {
    hide IsBase, Taken, Moved, NestedApart, ScalarKeys;
    TakenIsBase(event, base, k);
    TakenIsBase(event, base, Moved(k));
  }

  lemma ApartIsSteady(event: Value)
    requires event.Obj? && Apart(event)
    ensures Steady(event)
  {
    hide Taken, Moved, NestedApart, ScalarKeys;
  }

  lemma SettledKeeps(event: Value, base: Place, order: seq<string>)
    requires event.Obj? && Apart(event) && IsBase(event, base) && IsOrder(event, order)
    ensures KeepsAll(event, Placed(base, order))
  {
    hide Placed, Join, ScalarKeys, Apart, IsLeaf, Target, Steady, Distinct;
    ApartIsSteady(event);
    AllSettle(event, base, order);
    var place := Placed(base, order);
    forall ks | IsLeaf(event, ks)
      ensures Has(place, ks)
    {
      if |ks| >= 2 {
        BaseHolds(event, base, ks);
        NestedKept(event, base, order, Join('.', ks));
        assert place[Join('.', ks)] == ks;
      } else {
        OneKeyLeaf(event, ks);
        assert ks[0] in Elems(order);
        assert place[Target(base, ks[0])] == ks;
      }
    }
  }

  lemma NestedKept(event: Value, base: Place, order: seq<string>, p: string)
    requires event.Obj? && Apart(event) && IsBase(event, base) && IsOrder(event, order) && p in base
    ensures p in Placed(base, order) && Placed(base, order)[p] == base[p]
  {
    hide Placed, IsBase, ScalarKeys, Apart, Target, Steady, Distinct;
    ApartIsSteady(event);
    AllSettle(event, base, order);
    if k :| k in order && Target(base, k) == p {
      assert k in Elems(order);
      TargetsFree(event, base, k);
    }
  }

  lemma BaseHolds(event: Value, base: Place, ks: seq<string>)
    requires event.Obj? && Apart(event) && IsBase(event, base) && |ks| >= 2 && IsLeaf(event, ks)
    ensures Join('.', ks) in base && base[Join('.', ks)] == ks
  {
    hide Join, ScalarKeys;
    assert IsLeaf(event, base[Join('.', ks)]);
  }

  lemma OneKeyLeaf(event: Value, ks: seq<string>)
    requires event.Obj? && IsLeaf(event, ks) && |ks| < 2
    ensures |ks| == 1 && ks == [ks[0]] && ks[0] in ScalarKeys(event)
  {
    hide ScalarKeys;
    if |ks| == 1 {
      assert ks == [ks[0]];
      ScalarLeaf(event, ks[0]);
    }
  }

  // ---------------------------------------------------------------------------------------
  // When one is
  // ---------------------------------------------------------------------------------------

  /** A nested leaf never stands anywhere but under its dotted key. */
  lemma {:induction false} NestedStay(base: Place, order: seq<string>)
    ensures forall p :: p in Placed(base, order) && |Placed(base, order)[p]| >= 2 ==> p in base && Placed(base, order)[p] == base[p]
    ensures forall p :: p in base ==> p in Placed(base, order)
    decreases |order|
  {
    hide Placed, Moved;
    if order == [] {
      PlacedSnoc(base, [], "");
    } else {
      var front, key := Fronts(order);
      NestedStay(base, front);
      PlacedSnoc(base, front, key);
    }
  }

  /** What is lost stays lost, unless the loop has yet to visit it. */
  lemma {:induction false} LostStays(base: Place, order: seq<string>, rest: seq<string>, ks: seq<string>)
    requires !Has(Placed(base, order), ks) && forall k :: k in rest ==> ks != [k]
    ensures !Has(Placed(base, order + rest), ks)
    decreases |rest|
  {
    hide Placed, Moved;
    if rest == [] {
      assert order + rest == order;
    } else {
      var front, key := Fronts(rest);
      LostStays(base, order, front, ks);
      assert order + rest == (order + front) + [key];
      PlacedSnoc(base, order + front, key);
    }
  }

  /** A moved key replaces the nested leaf under its new name, in every order. */
  lemma TakenIsLost(event: Value, base: Place, order: seq<string>, k: string)
    requires event.Obj? && IsBase(event, base) && IsOrder(event, order)
    requires k in ScalarKeys(event) && k in base && Moved(k) in base
    ensures IsLeaf(event, base[Moved(k)]) && !Has(Placed(base, order), base[Moved(k)])
  {
    hide Join, Moved, Placed, IsLeaf, ScalarKeys, Distinct;
    assert k in Elems(order);
    var i :| 0 <= i < |order| && order[i] == k;
    var front, rest := order[..i], order[i + 1..];
    assert order == (front + [k]) + rest;
    TakenThere(base, front, k);
    LostStays(base, front + [k], rest, base[Moved(k)]);
  }

  lemma TakenThere(base: Place, front: seq<string>, k: string)
    requires k in base && Moved(k) in base && |base[Moved(k)]| >= 2
    requires forall p, q :: p in base && q in base && base[p] == base[q] ==> p == q
    ensures !Has(Placed(base, front + [k]), base[Moved(k)])
  {
    hide Moved, Placed;
    NestedStay(base, front);
    PlacedSnoc(base, front, k);
  }

  /** A moved key replaces the key that has its new name, when the loop visits that one first. */
  lemma MovedIsLost(event: Value, base: Place, k: string) returns (order: seq<string>)
    requires event.Obj? && IsBase(event, base)
    requires k in ScalarKeys(event) && k in base && Moved(k) in ScalarKeys(event) && Moved(k) !in base
    ensures IsOrder(event, order) && IsLeaf(event, [Moved(k)]) && !Has(Placed(base, order), [Moved(k)])
  {
    hide Join, Placed, Moved, ScalarKeys, Sorted;
    var j := Moved(k);
    MovedApart(k, k);
    var rest := Sorted(ScalarKeys(event) - {k, j});
    order := [j, k] + rest;
    TwoFirst(ScalarKeys(event), j, k, rest);
    ScalarLeaf(event, j);
    PlacedSnoc(base, [], j);
    PlacedSnoc(base, [j], k);
    assert [] + [j] == [j] && [j] + [k] == [j, k];
    assert Placed(base, [j, k]) == base[j := [j]][j := [k]];
    forall p | p in base
      ensures base[p] != [j]
    {
    }
    LostStays(base, [j, k], rest, [j]);
  }

  lemma TwoFirst(s: set<string>, j: string, k: string, rest: seq<string>)
    requires j in s && k in s && j != k && Distinct(rest) && forall x :: x in rest <==> x in s - {k, j}
    ensures Distinct([j, k] + rest) && Elems([j, k] + rest) == s
  {
    hide Distinct, Elems;
    assert {j} + ({k} + (s - {k, j})) == s;
    InFront(k, rest);
    InFront(j, [k] + rest);
    assert [j] + ([k] + rest) == [j, k] + rest;
    ElemsOf(rest, s - {k, j});
  }

  lemma ElemsOf(rest: seq<string>, s: set<string>)
    requires forall k :: k in rest <==> k in s
    ensures Elems(rest) == s
  {
  }

  lemma InFront(key: string, rest: seq<string>)
    requires Distinct(rest) && key !in rest
    ensures Distinct([key] + rest) && Elems([key] + rest) == {key} + Elems(rest)
  {
  }

  /** Every leaf keeps a key of its own, in every order of the second loop, if and only if the
      dotted keys of the nested leaves and the names that keys move to are apart. It holds of
      whatever the first loop leaves. */
  lemma KeepsExactly(event: Value, base: Place)
    requires event.Obj? && IsBase(event, base)
    ensures (forall order :: IsOrder(event, order) ==> KeepsAll(event, Placed(base, order))) <==> Apart(event)
  {
    hide Join, Placed, IsBase, IsOrder, KeepsAll, Apart;
    if Apart(event) {
      forall order | IsOrder(event, order)
        ensures KeepsAll(event, Placed(base, order))
      {
        SettledKeeps(event, base, order);
      }
    } else {
      var order := Loses(event, base);
    }
  }

  /** An order that loses a leaf, when two names meet. */
  lemma Loses(event: Value, base: Place) returns (order: seq<string>)
    requires event.Obj? && IsBase(event, base) && !Apart(event)
    ensures IsOrder(event, order) && !KeepsAll(event, Placed(base, order))
  {
    hide Join, Placed, IsBase, Sorted, ScalarKeys, Moved, IsLeaf;
    order := Sorted(ScalarKeys(event));
    assert Elems(order) == ScalarKeys(event);
    if !NestedApart(event) {
      var ks := TwoUnderOne(event, base, order);
      assert IsLeaf(event, ks);
    } else {
      var k :| k in ScalarKeys(event) && Taken(event, k) && (Moved(k) in ScalarKeys(event) || Taken(event, Moved(k)));
      TakenIsBase(event, base, k);
      TakenIsBase(event, base, Moved(k));
      if Moved(k) in base {
        TakenIsLost(event, base, order, k);
      } else {
        order := MovedIsLost(event, base, k);
      }
    }
  }

  lemma TwoUnderOne(event: Value, base: Place, order: seq<string>) returns (ks: seq<string>)
    requires IsBase(event, base) && !NestedApart(event)
    ensures IsLeaf(event, ks) && !Has(Placed(base, order), ks)
  {
    hide Join, Placed, IsLeaf;
    var xs, ys :| |xs| >= 2 && |ys| >= 2 && IsLeaf(event, xs) && IsLeaf(event, ys) && Join('.', xs) == Join('.', ys) && xs != ys;
    ks := if base[Join('.', xs)] == xs then ys else xs;
    NestedStay(base, order);
  }

  // ---------------------------------------------------------------------------------------
  // One event, two outputs
  // ---------------------------------------------------------------------------------------

  /** a.b = x, "a.b": y, "wlog.fields.a.b": z. */
  function Crowded(x: Value, y: Value, z: Value): Value {
    Obj(map["a" := Obj(map["b" := x]), "a.b" := y, "wlog.fields.a.b" := z])
  }

  const AB: seq<string> := ["a", "b"]

  lemma CrowdedLeaves(x: Value, y: Value, z: Value, ks: seq<string>)
    requires !x.Obj? && !y.Obj? && !z.Obj?
    ensures |ks| >= 2 && IsLeaf(Crowded(x, y, z), ks) ==> ks == AB
    ensures Leaf(Crowded(x, y, z), AB) == Some(x)
  {
    hide Leaf;
    var event, below := Crowded(x, y, z), Obj(map["b" := x]);
    LeafStep(event, AB);
    LeafStep(below, ["b"]);
    LeafStep(x, []);
    assert AB[1..] == ["b"] && ["b"][1..] == [];
    if |ks| >= 2 && ks[0] in event.fields {
      LeafStep(event, ks);
      LeafStep(event.fields[ks[0]], ks[1..]);
      LeafStep(x, ks[2..]);
      assert ks[1..][1..] == ks[2..];
      assert ks == [ks[0], ks[1]] + ks[2..];
    } else {
      LeafStep(event, ks);
    }
  }

  lemma CrowdedScalars(x: Value, y: Value, z: Value)
    requires !x.Obj? && !y.Obj? && !z.Obj?
    ensures ScalarKeys(Crowded(x, y, z)) == {"a.b", "wlog.fields.a.b"}
    ensures Moved("a.b") == "wlog.fields.a.b" && Join('.', AB) == "a.b"
  {
    assert "a" != "a.b" && "a" != "wlog.fields.a.b";
    assert Join('.', AB[1..]) == "b";
  }

  lemma CrowdedBase(x: Value, y: Value, z: Value)
    requires !x.Obj? && !y.Obj? && !z.Obj?
    ensures IsBase(Crowded(x, y, z), map["a.b" := AB])
  {
    hide Join, Crowded, Leaf;
    CrowdedScalars(x, y, z);
    CrowdedLeaves(x, y, z, AB);
    forall ks | |ks| >= 2 && IsLeaf(Crowded(x, y, z), ks)
      ensures Join('.', ks) == "a.b"
    {
      CrowdedLeaves(x, y, z, ks);
    }
  }

  lemma CrowdedOrder(event: Value, j: string, k: string)
    requires event.Obj? && j != k && ScalarKeys(event) == {j, k}
    ensures IsOrder(event, [j, k])
  {
  }

  /** One order of the second loop keeps all three values, and the other writes y over z. */
  lemma OrderDecides(x: Value, y: Value, z: Value)
    requires !x.Obj? && !y.Obj? && !z.Obj?
    ensures var event, base := Crowded(x, y, z), map["a.b" := AB];
      var k, j := "a.b", Moved("a.b");
      && IsBase(event, base) && IsOrder(event, [j, k]) && IsOrder(event, [k, j])
      && Written(event, Placed(base, [j, k])) == map[k := x, j := y]
      && Written(event, Placed(base, [k, j])) == map[k := x, j := y, Moved(j) := z]
  {
    hide Moved, Join, Placed, IsOrder, IsBase, ScalarKeys, Leaf, Written;
    var event := Crowded(x, y, z);
    var base: Place := map["a.b" := AB];
    var k, j := "a.b", Moved("a.b");
    CrowdedBase(x, y, z);
    CrowdedScalars(x, y, z);
    MovedApart(k, k);
    CrowdedOrder(event, j, k);
    CrowdedOrder(event, k, j);
    CrowdedPlaces(k);
    CrowdedValues(x, y, z);
  }

  lemma CrowdedPlaces(k: string)
    ensures var base, j := map[k := AB], Moved(k);
      && Placed(base, [j, k]) == map[k := AB, j := [k]]
      && Placed(base, [k, j]) == map[k := AB, j := [k], Moved(j) := [j]]
  {
    hide Moved, Placed;
    var base: Place, j := map[k := AB], Moved(k);
    MovedApart(k, k);
    MovedApart(j, j);
    PlacedSnoc(base, [], j);
    PlacedSnoc(base, [], k);
    PlacedSnoc(base, [j], k);
    PlacedSnoc(base, [k], j);
    assert [] + [j] == [j] && [] + [k] == [k] && [j] + [k] == [j, k] && [k] + [j] == [k, j];
    assert Placed(base, [j, k]) == map[k := AB, j := [k]];
    assert Placed(base, [k, j]) == map[k := AB, j := [k], Moved(j) := [j]];
  }

  lemma CrowdedValues(x: Value, y: Value, z: Value)
    requires !x.Obj? && !y.Obj? && !z.Obj?
    ensures var event, k, j := Crowded(x, y, z), "a.b", Moved("a.b");
      && Written(event, map[k := AB, j := [k]]) == map[k := x, j := y]
      && Written(event, map[k := AB, j := [k], Moved(j) := [j]]) == map[k := x, j := y, Moved(j) := z]
  {
    hide Moved, Leaf, ScalarKeys;
    var event, k, j := Crowded(x, y, z), "a.b", Moved("a.b");
    MovedApart(k, k);
    MovedApart(j, j);
    CrowdedScalars(x, y, z);
    CrowdedLeaves(x, y, z, AB);
    ScalarLeaf(event, k);
    ScalarLeaf(event, j);
    assert Leaf(event, [k]) == Some(y) && Leaf(event, [j]) == Some(z);
    WrittenTwo(event, k, AB, j, [k]);
    WrittenThree(event, k, AB, j, [k], Moved(j), [j]);
  }

  lemma WrittenTwo(event: Value, k: string, ks: seq<string>, j: string, js: seq<string>)
    requires k != j && IsLeaf(event, ks) && IsLeaf(event, js)
    ensures Written(event, map[k := ks, j := js]) == map[k := Leaf(event, ks).value, j := Leaf(event, js).value]
  {
    hide Leaf;
  }

  lemma WrittenThree(event: Value, k: string, ks: seq<string>, j: string, js: seq<string>, l: string, ls: seq<string>)
    requires k != j && j != l && k != l && IsLeaf(event, ks) && IsLeaf(event, js) && IsLeaf(event, ls)
    ensures Written(event, map[k := ks, j := js, l := ls])
         == map[k := Leaf(event, ks).value, j := Leaf(event, js).value, l := Leaf(event, ls).value]
  {
    hide Leaf;
  }
}
