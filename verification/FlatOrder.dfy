/** preset/flat.go: exactly when the output depends on the order in which Go ranges over the maps. */
module FlatOrder {
  import opened GoBytes
  import opened Keys
  import opened Tree
  import opened FlatPlaces
  import opened FlatWalks

  /** Some taken key moves to this name, in every order. */
  ghost predicate MovedTo(event: Value, p: string)
    requires event.Obj?
  {
    exists k :: k in ScalarKeys(event) && Taken(event, k) && Moved(k) == p
  }

  /** Two nested leaves share a dotted key only where a moved key replaces them both. */
  ghost predicate Decided(event: Value)
    requires event.Obj?
  {
    forall ks, js :: |ks| >= 2 && |js| >= 2 && IsLeaf(event, ks) && IsLeaf(event, js) && Join('.', ks) == Join('.', js) && ks != js ==>
      MovedTo(event, Join('.', ks))
  }

  /** In every order of the two loops, each key of the output holds the same leaf. */
  ghost predicate OnePlacing(event: Value)
    requires event.Obj?
  {
    forall b, o, b', o' :: Reached(event, b) && IsOrder(event, o) && Reached(event, b') && IsOrder(event, o') ==>
      Placed(b, o) == Placed(b', o')
  }

  // ---------------------------------------------------------------------------------------
  // Where it does not
  // ---------------------------------------------------------------------------------------

  lemma SameKeys(event: Value, b: Place, b': Place, p: string)
    requires event.Obj? && IsBase(event, b) && IsBase(event, b')
    ensures p in b <==> p in b'
    ensures Target(b, p) == Target(b', p)
  {
    hide IsBase, Taken;
    TakenIsBase(event, b, p);
    TakenIsBase(event, b', p);
  }

  lemma SameVisits(event: Value, b: Place, o: seq<string>, b': Place, o': seq<string>, p: string)
    requires event.Obj? && IsBase(event, b) && IsOrder(event, o) && IsBase(event, b') && IsOrder(event, o')
    ensures Visited(b, o, p) ==> Visited(b', o', p)
  {
    hide ScalarKeys, Target, IsBase, Distinct;
    if k :| k in o && Target(b, k) == p {
      SameKeys(event, b, b', k);
      assert k in Elems(o) && k in Elems(o');
    }
  }

  lemma SamePlaces(event: Value, b: Place, o: seq<string>, b': Place, o': seq<string>, p: string)
    requires event.Obj? && Steady(event) && Decided(event)
    requires IsBase(event, b) && IsOrder(event, o) && IsBase(event, b') && IsOrder(event, o') && p in Placed(b, o)
    ensures p in Placed(b', o') && Placed(b', o')[p] == Placed(b, o)[p]
  {
    hide Placed, Steady, Decided, ScalarKeys, Target, IsBase, Distinct;
    AllSettle(event, b, o);
    AllSettle(event, b', o');
    SameKeys(event, b, b', p);
    SameVisits(event, b', o', b, o, p);
    if k :| k in o && Target(b, k) == p {
      SameKeys(event, b, b', k);
      assert k in Elems(o) && k in Elems(o');
    } else {
      UnlessMoved(event, b, o, b', p);
    }
  }

  lemma MovedIsVisited(event: Value, b: Place, o: seq<string>, p: string)
    requires event.Obj? && IsBase(event, b) && IsOrder(event, o)
    ensures MovedTo(event, p) ==> Visited(b, o, p)
  {
    hide ScalarKeys, Moved, IsBase, Taken, Distinct;
    if k :| k in ScalarKeys(event) && Taken(event, k) && Moved(k) == p {
      TakenIsBase(event, b, k);
      assert k in Elems(o);
      assert k in o && Target(b, k) == p;
    }
  }

  /** A nested leaf that no key replaces is the only one under its name. */
  lemma UnlessMoved(event: Value, b: Place, o: seq<string>, b': Place, p: string)
    requires event.Obj? && Decided(event) && IsBase(event, b) && IsOrder(event, o) && IsBase(event, b')
    requires p in b && p in b' && !Visited(b, o, p)
    ensures b[p] == b'[p]
  {
    hide Join, ScalarKeys, IsLeaf, MovedTo, IsOrder, Visited;
    MovedIsVisited(event, b, o, p);
    assert IsLeaf(event, b[p]) && IsLeaf(event, b'[p]);
  }

  lemma OneWay(event: Value, b: Place, o: seq<string>, b': Place, o': seq<string>)
    requires event.Obj? && Steady(event) && Decided(event)
    requires IsBase(event, b) && IsOrder(event, o) && IsBase(event, b') && IsOrder(event, o')
    ensures Placed(b, o) == Placed(b', o')
  {
    hide *;
    var x, y := Placed(b, o), Placed(b', o');
    forall p
      ensures p in x <==> p in y
      ensures p in x && p in y ==> x[p] == y[p]
    {
      if p in x {
        SamePlaces(event, b, o, b', o', p);
      }
      if p in y {
        SamePlaces(event, b', o', b, o, p);
      }
    }
    assert x == y;
  }

  // ---------------------------------------------------------------------------------------
  // Where it does
  // ---------------------------------------------------------------------------------------

  /** A key that moved keeps the place it moved to, until the loop visits it again. */
  lemma {:induction false} StaysPut(base: Place, front: seq<string>, rest: seq<string>, j: string)
    requires Moved(j) in Placed(base, front) && Placed(base, front)[Moved(j)] == [j] && j !in rest
    ensures Moved(j) in Placed(base, front + rest) && Placed(base, front + rest)[Moved(j)] == [j]
    decreases |rest|
  {
    hide Placed, Moved;
    if rest == [] {
      assert front + rest == front;
    } else {
      var before, key := Fronts(rest);
      StaysPut(base, front, before, j);
      assert front + rest == (front + before) + [key];
      PlacedSnoc(base, front + before, key);
      MovedApart(key, j);
    }
  }

  /** Two orders of the second loop that put the key Moved(k) in different places. */
  lemma TwoOrders(event: Value, base: Place, k: string) returns (o: seq<string>, o': seq<string>)
    requires event.Obj? && IsBase(event, base)
    requires k in ScalarKeys(event) && k in base && Moved(k) in ScalarKeys(event) && Moved(k) !in base
    ensures IsOrder(event, o) && IsOrder(event, o') && Placed(base, o) != Placed(base, o')
  {
    hide Placed, Moved, ScalarKeys, IsBase, Sorted;
    var j := Moved(k);
    o := MovedIsLost(event, base, k);
    MovedApart(k, k);
    MovedApart(j, j);
    var rest := Sorted(ScalarKeys(event) - {k, j});
    o' := [k, j] + rest;
    TwoFirst(ScalarKeys(event), k, j, rest);
    PlacedSnoc(base, [], k);
    PlacedSnoc(base, [k], j);
    assert [] + [k] == [k] && [k] + [j] == [k, j];
    StaysPut(base, [k, j], rest, j);
    assert Has(Placed(base, o'), [j]);
  }

  lemma NotMovedTo(event: Value, b: Place, order: seq<string>, p: string)
    requires event.Obj? && Steady(event) && IsBase(event, b) && IsOrder(event, order) && p in b && !MovedTo(event, p)
    ensures p in Placed(b, order) && Placed(b, order)[p] == b[p]
  {
    hide Placed, Steady, ScalarKeys, IsBase, Distinct, Moved, Taken;
    AllSettle(event, b, order);
    if k :| k in order && Target(b, k) == p {
      assert k in Elems(order);
      TakenIsBase(event, b, k);
    }
  }

  lemma SomeOrder(event: Value) returns (order: seq<string>)
    requires event.Obj?
    ensures IsOrder(event, order)
  {
    hide Sorted, ScalarKeys;
    order := Sorted(ScalarKeys(event));
    assert Elems(order) == ScalarKeys(event);
  }

  /** The place of each leaf is the same in every order of the two loops if and only if no taken
      key moves to the name of a key that is not taken, and two nested leaves share a dotted key
      only where a moved key replaces them both. */
  lemma OrderDecidesExactly(event: Value)
    requires event.Obj?
    ensures OnePlacing(event) <==> Steady(event) && Decided(event)
  {
    hide Placed, IsBase, IsOrder, Join, Sorted, ScalarKeys, Moved, IsLeaf, Reached;
    if Steady(event) && Decided(event) {
      forall b, o, b', o' | Reached(event, b) && IsOrder(event, o) && Reached(event, b') && IsOrder(event, o')
        ensures Placed(b, o) == Placed(b', o')
      {
        ReachedIsBase(event, b);
        ReachedIsBase(event, b');
        OneWay(event, b, o, b', o');
      }
    } else if !Steady(event) {
      var k :| k in ScalarKeys(event) && Taken(event, k) && Moved(k) in ScalarKeys(event) && !Taken(event, Moved(k));
      var ks :| |ks| >= 2 && IsLeaf(event, ks) && Join('.', ks) == k;
      var base := CanBeLast(event, ks);
      ReachedIsBase(event, base);
      TakenIsBase(event, base, k);
      TakenIsBase(event, base, Moved(k));
      var o, o' := TwoOrders(event, base, k);
    } else {
      var xs, ys :| |xs| >= 2 && |ys| >= 2 && IsLeaf(event, xs) && IsLeaf(event, ys) && Join('.', xs) == Join('.', ys) && xs != ys
        && !MovedTo(event, Join('.', xs));
      var b := CanBeLast(event, xs);
      var b' := CanBeLast(event, ys);
      ReachedIsBase(event, b);
      ReachedIsBase(event, b');
      var order := SomeOrder(event);
      NotMovedTo(event, b, order, Join('.', xs));
      NotMovedTo(event, b', order, Join('.', xs));
    }
  }
}
