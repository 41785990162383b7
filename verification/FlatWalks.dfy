/** preset/flat.go: what the first loop can leave, over every order of every map it ranges over. */
module FlatWalks {
  import opened GoBytes
  import opened Keys
  import opened Tree
  import opened TreePaths
  import opened FlatPlaces

  /** The order in which the range over the object at each path comes. */
  type Orders = seq<string> -> seq<string>

  /** flatten, in these orders: each leaf below v is put under its dotted key. */
  ghost function Walk(v: Value, at: seq<string>, ord: Orders, place: Place): Place
    requires at != []
    decreases v, 1, 0
  {
    if v.Obj? then WalkKeys(v, at, ord(at), ord, place) else place[Join('.', at) := at]
  }

  /** The loop over some keys of the object v. */
  ghost function WalkKeys(v: Value, at: seq<string>, keys: seq<string>, ord: Orders, place: Place): Place
    requires v.Obj?
    decreases v, 0, |keys|
  {
    if keys == [] then place
    else
      var mid, key := WalkKeys(v, at, keys[..|keys| - 1], ord, place), keys[|keys| - 1];
      if key in v.fields then Walk(v.fields[key], at + [key], ord, mid) else mid
  }

  ghost predicate IsRange(keys: seq<string>, all: set<string>) {
    Distinct(keys) && Elems(keys) == all
  }

  /** Every range takes each key of its object once. */
  ghost predicate Fits(v: Value, at: seq<string>, ord: Orders) {
    v.Obj? ==> IsRange(ord(at), v.fields.Keys) && forall k :: k in v.fields ==> Fits(v.fields[k], at + [k], ord)
  }

  ghost predicate FitsNested(event: Value, ord: Orders)
    requires event.Obj?
  {
    forall k :: k in NestedKeys(event) ==> Fits(event.fields[k], [k], ord)
  }

  /** Some order of the ranges of the first loop leaves this. */
  ghost predicate Reached(event: Value, base: Place)
    requires event.Obj?
  {
    exists keys, ord: Orders :: IsRange(keys, NestedKeys(event)) && FitsNested(event, ord) && base == WalkKeys(event, [], keys, ord, map[])
  }

  // ---------------------------------------------------------------------------------------
  // What a walk writes
  // ---------------------------------------------------------------------------------------

  /** A leaf of v at or below one of these keys. */
  ghost predicate LeafUnder(v: Value, keys: set<string>, ks: seq<string>) {
    ks != [] && ks[0] in keys && IsLeaf(v, ks)
  }

  ghost predicate Holds(v: Value, keys: set<string>, at: seq<string>, p: string, path: seq<string>) {
    exists ks :: LeafUnder(v, keys, ks) && path == at + ks && Join('.', path) == p
  }

  /** r is place with the leaves under these keys written into it. */
  ghost predicate KeysWrote(place: Place, r: Place, v: Value, at: seq<string>, keys: set<string>) {
    && (forall p :: p in place ==> p in r)
    && (forall ks :: LeafUnder(v, keys, ks) ==> Join('.', at + ks) in r)
    && (forall p :: p in r ==> (p in place && r[p] == place[p]) || Holds(v, keys, at, p, r[p]))
  }

  ghost predicate HoldsIn(v: Value, at: seq<string>, p: string, path: seq<string>)
    requires at != []
  {
    exists ks :: IsLeaf(v, ks) && path == at + ks && Join('.', path) == p
  }

  ghost predicate ValueWrote(place: Place, r: Place, v: Value, at: seq<string>)
    requires at != []
  {
    && (forall p :: p in place ==> p in r)
    && (forall ks :: IsLeaf(v, ks) ==> Join('.', at + ks) in r)
    && (forall p :: p in r ==> (p in place && r[p] == place[p]) || HoldsIn(v, at, p, r[p]))
  }

  lemma LeafBelow(v: Value, key: string, ks: seq<string>)
    requires v.Obj? && key in v.fields
    ensures IsLeaf(v, [key] + ks) <==> IsLeaf(v.fields[key], ks)
  {
    hide Leaf;
    LeafStep(v, [key] + ks);
    assert ([key] + ks)[1..] == ks;
  }

  /** One more key. */
  lemma WroteKey(place: Place, mid: Place, r: Place, v: Value, at: seq<string>, keys: set<string>, key: string)
    requires v.Obj? && key in v.fields
    requires KeysWrote(place, mid, v, at, keys) && ValueWrote(mid, r, v.fields[key], at + [key])
    ensures KeysWrote(place, r, v, at, keys + {key})
  {
    hide IsLeaf, Join;
    forall ks | LeafUnder(v, keys + {key}, ks)
      ensures Join('.', at + ks) in r
    {
      if ks[0] == key {
        assert ks == [key] + ks[1..] && at + ks == (at + [key]) + ks[1..];
        LeafBelow(v, key, ks[1..]);
      } else {
        assert LeafUnder(v, keys, ks);
      }
    }
    forall p | p in r
      ensures (p in place && r[p] == place[p]) || Holds(v, keys + {key}, at, p, r[p])
    {
      if HoldsIn(v.fields[key], at + [key], p, r[p]) {
        var ks :| IsLeaf(v.fields[key], ks) && r[p] == (at + [key]) + ks && Join('.', r[p]) == p;
        LeafBelow(v, key, ks);
        assert r[p] == at + ([key] + ks) && LeafUnder(v, keys + {key}, [key] + ks);
      } else if Holds(v, keys, at, p, r[p]) {
        var ks :| LeafUnder(v, keys, ks) && r[p] == at + ks && Join('.', r[p]) == p;
        assert LeafUnder(v, keys + {key}, ks);
      }
    }
  }

  lemma AllKeysWrote(place: Place, r: Place, v: Value, at: seq<string>)
    requires v.Obj? && at != [] && KeysWrote(place, r, v, at, v.fields.Keys)
    ensures ValueWrote(place, r, v, at)
  {
    hide Leaf, Join;
    forall ks | IsLeaf(v, ks)
      ensures LeafUnder(v, v.fields.Keys, ks)
    {
      LeafStep(v, ks);
    }
    forall p | p in r && Holds(v, v.fields.Keys, at, p, r[p])
      ensures HoldsIn(v, at, p, r[p])
    {
      var ks :| LeafUnder(v, v.fields.Keys, ks) && r[p] == at + ks && Join('.', r[p]) == p;
      assert IsLeaf(v, ks);
    }
  }

  lemma ScalarWrote(place: Place, v: Value, at: seq<string>)
    requires !v.Obj? && at != []
    ensures ValueWrote(place, place[Join('.', at) := at], v, at)
  {
    hide Leaf, Join;
    LeafStep(v, []);
    assert at + [] == at;
    forall ks | IsLeaf(v, ks)
      ensures ks == []
    {
      LeafStep(v, ks);
    }
    assert IsLeaf(v, []);
  }

  lemma {:induction false} WalkWrites(v: Value, at: seq<string>, ord: Orders, place: Place)
    requires at != [] && Fits(v, at, ord)
    ensures ValueWrote(place, Walk(v, at, ord, place), v, at)
    decreases v, 1, 0
  {
    hide ValueWrote, KeysWrote, WalkKeys, Distinct;
    if v.Obj? {
      KeysWrite(v, at, ord(at), ord, place);
      AllKeysWrote(place, WalkKeys(v, at, ord(at), ord, place), v, at);
    } else {
      ScalarWrote(place, v, at);
    }
  }

  lemma {:induction false} KeysWrite(v: Value, at: seq<string>, keys: seq<string>, ord: Orders, place: Place)
    requires v.Obj? && Elems(keys) <= v.fields.Keys && forall k :: k in keys && k in v.fields ==> Fits(v.fields[k], at + [k], ord)
    ensures KeysWrote(place, WalkKeys(v, at, keys, ord, place), v, at, Elems(keys))
    decreases v, 0, |keys|
  {
    hide ValueWrote, KeysWrote, Fits, Walk;
    if keys == [] {
      NothingWrote(place, v, at);
    } else {
      var front, key := keys[..|keys| - 1], keys[|keys| - 1];
      assert keys == front + [key] && key in Elems(keys);
      ElemsSnoc(front, key);
      KeysWrite(v, at, front, ord, place);
      var mid := WalkKeys(v, at, front, ord, place);
      WalkWrites(v.fields[key], at + [key], ord, mid);
      WroteKey(place, mid, Walk(v.fields[key], at + [key], ord, mid), v, at, Elems(front), key);
    }
  }

  lemma NothingWrote(place: Place, v: Value, at: seq<string>)
    ensures KeysWrote(place, place, v, at, Elems([]))
  {
  }

  lemma NestedIsKey(event: Value, k: string)
    requires event.Obj?
    ensures k in NestedKeys(event) <==> k in event.fields && event.fields[k].Obj?
  {
  }

  lemma NestedLeaves(event: Value, ks: seq<string>)
    requires event.Obj?
    ensures LeafUnder(event, NestedKeys(event), ks) <==> |ks| >= 2 && IsLeaf(event, ks)
  {
    hide Leaf;
    LeafStep(event, ks);
    if ks != [] && ks[0] in event.fields {
      LeafStep(event.fields[ks[0]], ks[1..]);
    }
  }

  /** With nothing there before, writing the leaves below the nested keys makes a base. */
  lemma WroteBase(event: Value, base: Place)
    requires event.Obj? && KeysWrote(map[], base, event, [], NestedKeys(event))
    ensures IsBase(event, base)
  {
    hide Join, NestedKeys, IsLeaf, LeafUnder;
    forall ks
      ensures LeafUnder(event, NestedKeys(event), ks) <==> |ks| >= 2 && IsLeaf(event, ks)
      ensures [] + ks == ks
    {
      NestedLeaves(event, ks);
    }
    forall p | p in base
      ensures |base[p]| >= 2 && IsLeaf(event, base[p]) && Join('.', base[p]) == p
    {
      var ks :| LeafUnder(event, NestedKeys(event), ks) && base[p] == [] + ks && Join('.', base[p]) == p;
    }
    forall ks | |ks| >= 2 && IsLeaf(event, ks)
      ensures Join('.', ks) in base
    {
      assert LeafUnder(event, NestedKeys(event), ks);
    }
  }

  /** What the first loop leaves has each dotted key of a nested leaf, and one such leaf under it. */
  lemma ReachedIsBase(event: Value, base: Place)
    requires event.Obj? && Reached(event, base)
    ensures IsBase(event, base)
  {
    hide WalkKeys, Fits, NestedKeys, Distinct, KeysWrote, IsBase;
    var keys, ord: Orders :| IsRange(keys, NestedKeys(event)) && FitsNested(event, ord) && base == WalkKeys(event, [], keys, ord, map[]);
    forall k | k in keys
      ensures k in NestedKeys(event) && k in event.fields && [] + [k] == [k]
    {
      assert k in Elems(keys);
      NestedIsKey(event, k);
    }
    assert Elems(keys) <= event.fields.Keys;
    KeysWrite(event, [], keys, ord, map[]);
    WroteBase(event, base);
  }

  // ---------------------------------------------------------------------------------------
  // The leaf that comes last
  // ---------------------------------------------------------------------------------------

  /** The value at a path of keys. */
  function Below(v: Value, path: seq<string>): Option<Value>
    decreases |path|
  {
    if path == [] then Some(v)
    else
      var above := Below(v, path[..|path| - 1]);
      if above.Some? && above.value.Obj? && path[|path| - 1] in above.value.fields
      then Some(above.value.fields[path[|path| - 1]]) else None
  }

  /** The keys of a set, this one last. */
  ghost function Ending(s: set<string>, last: string): (keys: seq<string>)
    ensures IsRange(keys, s)
    ensures last in s ==> keys != [] && keys[|keys| - 1] == last
  {
    if last in s then
      EndsIn(s, last);
      Sorted(s - {last}) + [last]
    else
      AllSorted(s);
      Sorted(s)
  }

  lemma AllSorted(s: set<string>)
    ensures Elems(Sorted(s)) == s
  {
    hide Sorted;
  }

  lemma EndsIn(s: set<string>, last: string)
    requires last in s
    ensures IsRange(Sorted(s - {last}) + [last], s)
  {
    hide Sorted, Distinct, Elems;
    AllSorted(s - {last});
    ElemsSnoc(Sorted(s - {last}), last);
    assert s - {last} + {last} == s;
  }

  /** Every range takes the keys of its object, the next key of this path last. */
  ghost function Towards(event: Value, xs: seq<string>): Orders {
    at => var v := Below(event, at);
      if v.Some? && v.value.Obj? then Ending(v.value.fields.Keys, if |at| < |xs| then xs[|at|] else "") else []
  }

  lemma BelowSnoc(event: Value, at: seq<string>, key: string)
    ensures Below(event, []) == Some(event)
    ensures Below(event, at + [key]) ==
      var v := Below(event, at);
      if v.Some? && v.value.Obj? && key in v.value.fields then Some(v.value.fields[key]) else None
  {
    assert (at + [key])[..|at|] == at;
  }

  lemma {:induction false} TowardsFits(event: Value, xs: seq<string>, v: Value, at: seq<string>)
    requires Below(event, at) == Some(v)
    ensures Fits(v, at, Towards(event, xs))
    decreases v
  {
    hide Below, Ending, IsRange;
    if v.Obj? {
      forall k | k in v.fields
        ensures Fits(v.fields[k], at + [k], Towards(event, xs))
      {
        BelowSnoc(event, at, k);
        TowardsFits(event, xs, v.fields[k], at + [k]);
      }
    }
  }

  /** The leaf at the end of the path is written after every other. */
  lemma {:induction false} LastWins(event: Value, v: Value, at: seq<string>, rest: seq<string>, place: Place)
    requires at != [] && Below(event, at) == Some(v) && IsLeaf(v, rest)
    ensures var r := Walk(v, at, Towards(event, at + rest), place);
      Join('.', at + rest) in r && r[Join('.', at + rest)] == at + rest
    decreases |rest|
  {
    hide Below, Ending, IsRange, Join, Leaf;
    var xs := at + rest;
    LeafStep(v, rest);
    if rest == [] {
      assert xs == at;
    } else {
      var key, keys := rest[0], Towards(event, xs)(at);
      assert xs[|at|] == key;
      assert keys[|keys| - 1] == key;
      var mid := WalkKeys(v, at, keys[..|keys| - 1], Towards(event, xs), place);
      BelowSnoc(event, at, key);
      assert (at + [key]) + rest[1..] == xs;
      LastWins(event, v.fields[key], at + [key], rest[1..], mid);
    }
  }

  lemma TowardsFitsNested(event: Value, xs: seq<string>)
    requires event.Obj?
    ensures FitsNested(event, Towards(event, xs))
  {
    hide Below, Fits, Ending;
    forall k | k in NestedKeys(event)
      ensures Fits(event.fields[k], [k], Towards(event, xs))
    {
      BelowSnoc(event, [], k);
      assert [] + [k] == [k];
      TowardsFits(event, xs, event.fields[k], [k]);
    }
  }

  /** Any nested leaf can be the one that the first loop leaves under its dotted key. */
  lemma CanBeLast(event: Value, xs: seq<string>) returns (base: Place)
    requires event.Obj? && |xs| >= 2 && IsLeaf(event, xs)
    ensures Reached(event, base) && Join('.', xs) in base && base[Join('.', xs)] == xs
  {
    hide Below, IsRange, Join, Leaf, Fits, NestedKeys, Walk, Sorted;
    var key, ord := xs[0], Towards(event, xs);
    var keys := Ending(NestedKeys(event), key);
    LeafStep(event, xs);
    LeafStep(event.fields[key], xs[1..]);
    NestedIsKey(event, key);
    base := WalkKeys(event, [], keys, ord, map[]);
    TowardsFitsNested(event, xs);
    BelowSnoc(event, [], key);
    assert [] + [key] == [key] && [key] + xs[1..] == xs;
    LastWins(event, event.fields[key], [key], xs[1..], WalkKeys(event, [], keys[..|keys| - 1], ord, map[]));
  }
}
