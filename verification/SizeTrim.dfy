/** stages.go, finalizeSize: the largest user fields go until the event fits its cap. */
module SizeTrim {
  import opened Tree
  import opened Keys
  import opened Sizes

  ghost function UserKeys(v: Value, reserved: set<string>): set<string>
    requires v.Obj?
  {
    v.fields.Keys - reserved
  }

  /** The size of the event without these keys. */
  ghost function Left(v: Value, gone: set<string>): nat
    requires v.Obj?
  {
    FieldsSize(v, v.fields.Keys - gone)
  }

  /** The order of the trim: by size, the largest first, and then by name. */
  ghost predicate Before(v: Value, a: string, b: string)
    requires v.Obj? && a in v.fields && b in v.fields
  {
    EntrySize(v, a) > EntrySize(v, b) || (EntrySize(v, a) == EntrySize(v, b) && AtMost(a, b))
  }

  ghost predicate Ranked(v: Value, keys: seq<string>)
    requires v.Obj? && Elems(keys) <= v.fields.Keys
  {
    Distinct(keys) && forall i, j :: 0 <= i < j < |keys| ==> Before(v, keys[i], keys[j])
  }

  /** What a trim may remove: user keys in order, none of which a later one precedes, each
      while the rest was still too large, until it fits or no user key is left. */
  ghost predicate Trims(v: Value, removed: seq<string>, reserved: set<string>, max: int) {
    && v.Obj? && Elems(removed) <= UserKeys(v, reserved)
    && Ranked(v, removed)
    && (forall i, k :: 0 <= i < |removed| && k in UserKeys(v, reserved) - Elems(removed) ==> Before(v, removed[i], k))
    && (forall n :: 0 <= n < |removed| ==> Left(v, Elems(removed[..n])) > max)
    && (Left(v, Elems(removed)) <= max || Elems(removed) == UserKeys(v, reserved))
  }

  // ---------------------------------------------------------------------------------------
  // What the trim comes to
  // ---------------------------------------------------------------------------------------

  /** It fails exactly when the reserved keys alone are over the cap. */
  lemma FailsExactly(v: Value, removed: seq<string>, reserved: set<string>, max: int)
    requires Trims(v, removed, reserved, max)
    ensures Left(v, Elems(removed)) > max <==> FieldsSize(v, v.fields.Keys * reserved) > max
  {
    hide FieldsSize, Ranked, Before;
    SizeGrows(v, v.fields.Keys * reserved, v.fields.Keys - Elems(removed));
    if Left(v, Elems(removed)) > max {
      assert v.fields.Keys - UserKeys(v, reserved) == v.fields.Keys * reserved;
    }
  }

  /** No choice of as many keys weighs more than keys that each weigh no less than the others. */
  lemma {:induction false} TopIsLargest(v: Value, user: set<string>, top: set<string>, s: set<string>)
    requires v.Obj? && user <= v.fields.Keys && top <= user && s <= user && |s| <= |top|
    requires forall x, y :: x in top && y in user - top ==> EntrySize(v, x) >= EntrySize(v, y)
    ensures FieldsSize(v, s) <= FieldsSize(v, top)
    decreases |s - top|
  {
    hide FieldsSize, EntrySize;
    if s <= top {
      SizeGrows(v, s, top);
    } else {
      var x :| x in s && x !in top;
      var y := Spare(top, s);
      var swapped := s - {x} + {y};
      TakeOut(v, s, x);
      TakeOut(v, swapped, y);
      assert swapped - {y} == s - {x};
      assert swapped - top == (s - top) - {x};
      TopIsLargest(v, user, top, swapped);
    }
  }

  lemma Spare(top: set<string>, s: set<string>) returns (y: string)
    requires |s| <= |top| && !(s <= top)
    ensures y in top && y !in s
  {
    if top <= s {
      SubsetOfSameSize(top, s);
    }
    y :| y in top && y !in s;
  }

  lemma {:induction false} SubsetOfSameSize(a: set<string>, b: set<string>)
    requires a <= b && |b| <= |a|
    ensures a == b
  {
    assert b == a + (b - a);
    assert |b| == |a| + |b - a|;
  }

  lemma {:induction false} ElemsCount(keys: seq<string>)
    requires Distinct(keys)
    ensures |Elems(keys)| == |keys|
  {
    if keys != [] {
      var front, last := keys[..|keys| - 1], keys[|keys| - 1];
      ElemsCount(front);
      assert Elems(keys) == Elems(front) + {last};
      assert last !in Elems(front);
    } else {
      assert Elems(keys) == {};
    }
  }

  /** When any set of user keys is enough, the trim succeeds, and it removes no more keys than
      that set has. */
  lemma Optimal(v: Value, removed: seq<string>, reserved: set<string>, max: int, s: set<string>)
    requires Trims(v, removed, reserved, max)
    requires s <= UserKeys(v, reserved) && Left(v, s) <= max
    ensures Left(v, Elems(removed)) <= max && |removed| <= |s|
  {
    hide FieldsSize, Before, Ranked;
    SizeGrows(v, v.fields.Keys * reserved, v.fields.Keys - s);
    FailsExactly(v, removed, reserved, max);
    if |s| < |removed| {
      TooFew(v, removed, reserved, max, s);
    }
  }

  lemma TooFew(v: Value, removed: seq<string>, reserved: set<string>, max: int, s: set<string>)
    requires Trims(v, removed, reserved, max)
    requires s <= UserKeys(v, reserved) && |s| < |removed|
    ensures Left(v, s) > max
  {
    hide FieldsSize, Before, EntrySize;
    var head := removed[..|s|];
    HeadOf(removed, |s|);
    ElemsCount(head);
    HeadIsTop(v, removed, reserved, max, |s|);
    TopIsLargest(v, UserKeys(v, reserved), Elems(head), s);
    LeftIsRest(v, s);
    LeftIsRest(v, Elems(head));
  }

  lemma HeadOf(keys: seq<string>, n: nat)
    requires n <= |keys|
    ensures Elems(keys[..n]) <= Elems(keys)
    ensures Distinct(keys) ==> Distinct(keys[..n])
    ensures Distinct(keys) && n < |keys| ==> keys[n] !in Elems(keys[..n])
  {
  }

  lemma LeftIsRest(v: Value, gone: set<string>)
    requires v.Obj? && gone <= v.fields.Keys
    ensures Left(v, gone) + FieldsSize(v, gone) == FieldsSize(v, v.fields.Keys)
  {
    hide FieldsSize;
    SizeOfUnion(v, v.fields.Keys - gone, gone);
    assert v.fields.Keys - gone + gone == v.fields.Keys;
  }

  lemma HeadIsTop(v: Value, removed: seq<string>, reserved: set<string>, max: int, n: nat)
    requires Trims(v, removed, reserved, max) && n <= |removed|
    ensures forall x, y :: x in Elems(removed[..n]) && x in v.fields && y in UserKeys(v, reserved) - Elems(removed[..n]) ==>
      EntrySize(v, x) >= EntrySize(v, y)
  {
    hide FieldsSize;
    forall x, y | x in Elems(removed[..n]) && x in v.fields && y in UserKeys(v, reserved) - Elems(removed[..n])
      ensures EntrySize(v, x) >= EntrySize(v, y)
    {
      var i :| 0 <= i < n && removed[i] == x;
      if y in Elems(removed) {
        var j :| 0 <= j < |removed| && removed[j] == y;
        if n <= j {
          assert Before(v, removed[i], removed[j]);
        }
      } else {
        assert y in UserKeys(v, reserved) - Elems(removed);
        assert Before(v, removed[i], y);
      }
    }
  }

  /** Two trims of one event remove the same keys in the same order, whatever order the map
      was read in. */
  lemma {:induction false} TrimIsUnique(v: Value, a: seq<string>, b: seq<string>, reserved: set<string>, max: int, n: nat)
    requires Trims(v, a, reserved, max) && Trims(v, b, reserved, max) && |a| <= |b| && n <= |a|
    ensures a[..n] == b[..n]
    ensures n == |a| ==> a == b
  {
    hide FieldsSize, Before;
    if n == 0 {
    } else {
      TrimIsUnique(v, a, b, reserved, max, n - 1);
      SameNext(v, a, b, reserved, max, n - 1);
      assert a[..n] == a[..n - 1] + [a[n - 1]] && b[..n] == b[..n - 1] + [b[n - 1]];
    }
    if n == |a| {
      assert a[..n] == a;
      if |a| < |b| {
        HeadOf(b, n);
      } else {
        assert b[..n] == b;
      }
    }
  }

  lemma SameHead(a: seq<string>, b: seq<string>, n: nat, j: nat)
    requires j < n <= |a| && n <= |b| && a[..n] == b[..n]
    ensures a[j] == b[j]
  {
    assert a[..n][j] == b[..n][j];
  }

  lemma SameNext(v: Value, a: seq<string>, b: seq<string>, reserved: set<string>, max: int, n: nat)
    requires Trims(v, a, reserved, max) && Trims(v, b, reserved, max) && n < |a| && n < |b| && a[..n] == b[..n]
    ensures a[n] == b[n]
  {
    hide FieldsSize, EntrySize, Left;
    if a[n] != b[n] {
      Precedes(v, a, b, reserved, max, n);
      Precedes(v, b, a, reserved, max, n);
      AtMostTotal(a[n], b[n]);
    }
  }

  lemma Precedes(v: Value, a: seq<string>, b: seq<string>, reserved: set<string>, max: int, n: nat)
    requires Trims(v, a, reserved, max) && Trims(v, b, reserved, max) && n < |a| && n < |b| && a[..n] == b[..n] && a[n] != b[n]
    ensures a[n] in v.fields && b[n] in v.fields && Before(v, a[n], b[n])
  {
    hide FieldsSize, EntrySize, Left, Before;
    assert a[n] in Elems(a) && b[n] in Elems(b);
    if b[n] in Elems(a) {
      var j :| 0 <= j < |a| && a[j] == b[n];
      if j < n {
        SameHead(a, b, n, j);
      }
    } else {
      assert b[n] in UserKeys(v, reserved) - Elems(a);
    }
  }

  // ---------------------------------------------------------------------------------------
  // finalizeSize
  // ---------------------------------------------------------------------------------------

  ghost predicate Measured(v: Value, keys: set<string>, sizes: map<string, nat>) {
    v.Obj? && keys <= v.fields.Keys && keys <= sizes.Keys && forall k :: k in keys ==> sizes[k] == EntrySize(v, k)
  }

  ghost predicate AllRanked(v: Value, keys: set<string>, r: seq<string>) {
    v.Obj? && keys <= v.fields.Keys && Elems(r) == keys && Ranked(v, r)
  }

  /** The first key of the order among some keys: what sort.Slice's comparison puts first. */
  method First(ghost v: Value, keys: set<string>, sizes: map<string, nat>) returns (first: string)
    requires keys != {} && Measured(v, keys, sizes)
    ensures first in keys && forall k :: k in keys && k != first ==> Before(v, first, k)
  {
    hide EntrySize, AtMost;
    first :| first in keys;
    var rest := keys - {first};
    while rest != {}
      invariant rest <= keys && first in keys - rest
      invariant forall k :: k in keys - rest && k != first ==> Before(v, first, k)
      decreases |rest|
    {
      var key :| key in rest;
      AtMostTotal(first, key);
      if sizes[key] > sizes[first] || (sizes[key] == sizes[first] && !AtMost(first, key)) {
        forall k | k in keys - rest && k != first
          ensures Before(v, key, k)
        {
          if AtMost(key, first) && AtMost(first, k) {
            AtMostTransitive(key, first, k);
          }
        }
        first := key;
      }
      rest := rest - {key};
    }
  }

  /** r is ranked, and each of its keys comes before each of rest. */
  ghost predicate Leads(v: Value, r: seq<string>, rest: set<string>) {
    && v.Obj? && Elems(r) <= v.fields.Keys && rest <= v.fields.Keys && Elems(r) !! rest
    && Ranked(v, r)
    && forall i, k :: 0 <= i < |r| && k in rest ==> Before(v, r[i], k)
  }

  /** sort.Slice, by selection: the order has no ties, so any sort gives this. */
  method SortBySize(ghost v: Value, keys: set<string>, sizes: map<string, nat>) returns (r: seq<string>)
    requires Measured(v, keys, sizes)
    ensures AllRanked(v, keys, r)
  {
    hide EntrySize, Before, Leads;
    r := [];
    var rest := keys;
    NoneLead(v, rest);
    while rest != {}
      invariant rest <= keys && Elems(r) == keys - rest && Leads(v, r, rest)
      decreases |rest|
    {
      var first := First(v, rest, sizes);
      LeadsSnoc(v, r, rest, first);
      r := r + [first];
      rest := rest - {first};
    }
    LeadsRanked(v, r, rest);
  }

  lemma NoneLead(v: Value, rest: set<string>)
    requires v.Obj? && rest <= v.fields.Keys
    ensures Leads(v, [], rest) && Elems([]) == {}
  {
  }

  lemma LeadsRanked(v: Value, r: seq<string>, rest: set<string>)
    requires Leads(v, r, rest)
    ensures v.Obj? && Elems(r) <= v.fields.Keys && Ranked(v, r)
  {
  }

  lemma LeadsSnoc(v: Value, r: seq<string>, rest: set<string>, first: string)
    requires Leads(v, r, rest) && first in rest && forall k :: k in rest && k != first ==> Before(v, first, k)
    ensures Leads(v, r + [first], rest - {first}) && Elems(r + [first]) == Elems(r) + {first}
  {
    hide Before;
    var s := r + [first];
    assert forall i :: 0 <= i < |r| ==> r[i] in Elems(r);
    assert forall k :: k in s <==> k in r || k == first;
  }

  /** The count of drops the wlog group holds, when it holds it as Go's own int. */
  function EarlierDrops(group: Object): int {
    if "dropped_fields" in group && group["dropped_fields"].Int? then group["dropped_fields"].i else 0
  }

  function Strings(names: seq<string>): (r: seq<Value>)
    ensures |r| == |names| && forall i :: 0 <= i < |r| ==> r[i] == Str(names[i])
  {
    seq(|names|, i requires 0 <= i < |names| => Str(names[i]))
  }

  /** The wlog group with both notes: the names of the removed fields, and the count of drops. */
  function Notes(group: Object, names: seq<string>): Object {
    group["truncated" := Arr(Strings(names))]["dropped_fields" := Int(EarlierDrops(group) + |names|)]
  }

  function WithNotes(event: Object, names: seq<string>): Object
    requires HasGroup(event)
  {
    event["wlog" := Obj(Notes(event["wlog"].fields, names))]
  }

  predicate HasGroup(event: Object) {
    "wlog" in event && event["wlog"].Obj?
  }

  /** The event under finalize. wlogFields is its own wlog group. */
  class Event {
    var fields: Object

    constructor (fields: Object)
      ensures this.fields == fields
    {
      this.fields := fields;
    }

    method FinalizeSize(reserved: set<string>, max: int) returns (ok: bool, ghost removed: seq<string>)
      requires HasGroup(fields) && "wlog" in reserved
      modifies this
      ensures Trims(Obj(old(fields)), removed, reserved, max)
      ensures ok <==> Left(Obj(old(fields)), Elems(removed)) <= max
      ensures HasGroup(old(fields) - Elems(removed))
      ensures fields == if ok && removed != [] then WithNotes(old(fields) - Elems(removed), removed) else old(fields) - Elems(removed)
    {
      hide ValueSize, FieldsSize, EntrySize, Before;
      ghost var v := Obj(fields);
      var total: int := ValueSizeOf(Obj(fields));
      removed := [];
      NothingRemoved(v, reserved, max);
      if total <= max {
        return true, [];
      }
      var sizes := MeasureAll(fields, reserved);
      var keys := SortBySize(v, fields.Keys - reserved, sizes);
      var n := 0;
      while n < |keys| && total > max
        invariant n <= |keys| && AllRanked(v, UserKeys(v, reserved), keys)
        invariant fields == v.fields - Elems(keys[..n]) && total == Left(v, Elems(keys[..n]))
        invariant forall m :: 0 <= m < n ==> Left(v, Elems(keys[..m])) > max
      {
        RemoveNext(v, keys, n);
        fields := fields - {keys[n]};
        total := total - sizes[keys[n]];
        n := n + 1;
      }
      removed := keys[..n];
      HeadTrims(v, keys, n, reserved, max);
      GroupStays(v, removed, reserved, max);
      if total > max {
        return false, removed;
      }
      if n == 0 {
        return true, removed;
      }
      fields := WithNotes(fields, keys[..n]);
      return true, removed;
    }
  }

  /** The wlog group is reserved, so no trim takes it. */
  lemma GroupStays(v: Value, removed: seq<string>, reserved: set<string>, max: int)
    requires Trims(v, removed, reserved, max) && HasGroup(v.fields) && "wlog" in reserved
    ensures HasGroup(v.fields - Elems(removed)) && (v.fields - Elems(removed))["wlog"] == v.fields["wlog"]
  {
  }

  lemma NothingMeasured(v: Value)
    requires v.Obj?
    ensures Measured(v, {}, map[])
  {
  }

  lemma MeasuredMore(v: Value, keys: set<string>, sizes: map<string, nat>, key: string, size: nat)
    requires Measured(v, keys, sizes) && key in v.fields && size == EntrySize(v, key)
    ensures Measured(v, keys + {key}, sizes[key := size])
  {
    hide EntrySize;
  }

  method MeasureAll(fields: Object, reserved: set<string>) returns (sizes: map<string, nat>)
    ensures Measured(Obj(fields), fields.Keys - reserved, sizes)
  {
    hide ValueSize, Measured;
    sizes := map[];
    var rest := fields.Keys - reserved;
    NothingMeasured(Obj(fields));
    assert fields.Keys - reserved - rest == {};
    while rest != {}
      invariant rest <= fields.Keys - reserved
      invariant Measured(Obj(fields), fields.Keys - reserved - rest, sizes)
      decreases |rest|
    {
      var key :| key in rest;
      var size := ValueSizeOf(fields[key]);
      MeasuredMore(Obj(fields), fields.Keys - reserved - rest, sizes, key, |key| + 8 + size);
      assert fields.Keys - reserved - rest + {key} == fields.Keys - reserved - (rest - {key});
      sizes := sizes[key := |key| + 8 + size];
      rest := rest - {key};
    }
    assert fields.Keys - reserved - {} == fields.Keys - reserved;
  }

  lemma NothingRemoved(v: Value, reserved: set<string>, max: int)
    requires v.Obj?
    ensures Left(v, Elems([])) == ValueSize(v)
    ensures ValueSize(v) <= max ==> Trims(v, [], reserved, max)
    ensures v.fields - Elems([]) == v.fields
  {
    assert v.fields.Keys - Elems([]) == v.fields.Keys;
  }

  lemma RemoveNext(v: Value, keys: seq<string>, n: nat)
    requires v.Obj? && n < |keys| && Distinct(keys) && Elems(keys) <= v.fields.Keys
    ensures keys[n] in v.fields
    ensures v.fields - Elems(keys[..n]) - {keys[n]} == v.fields - Elems(keys[..n + 1])
    ensures Left(v, Elems(keys[..n + 1])) == Left(v, Elems(keys[..n])) - EntrySize(v, keys[n])
  {
    hide FieldsSize, EntrySize;
    HeadOf(keys, n);
    assert keys[n] in Elems(keys);
    assert keys[..n + 1] == keys[..n] + [keys[n]];
    assert Elems(keys[..n + 1]) == Elems(keys[..n]) + {keys[n]};
    TakeOut(v, v.fields.Keys - Elems(keys[..n]), keys[n]);
    assert v.fields.Keys - Elems(keys[..n]) - {keys[n]} == v.fields.Keys - Elems(keys[..n + 1]);
  }

  lemma HeadTrims(v: Value, keys: seq<string>, n: nat, reserved: set<string>, max: int)
    requires v.Obj? && n <= |keys| && AllRanked(v, UserKeys(v, reserved), keys)
    requires forall m :: 0 <= m < n ==> Left(v, Elems(keys[..m])) > max
    requires Left(v, Elems(keys[..n])) <= max || n == |keys|
    ensures Trims(v, keys[..n], reserved, max)
  {
    hide FieldsSize, EntrySize, Before;
    var removed := keys[..n];
    HeadOf(keys, n);
    forall m | 0 <= m < n
      ensures removed[..m] == keys[..m]
    {
    }
    forall i, k | 0 <= i < n && k in UserKeys(v, reserved) - Elems(removed)
      ensures Before(v, removed[i], k)
    {
      var j :| 0 <= j < |keys| && keys[j] == k;
      if n <= j {
        assert Before(v, keys[i], keys[j]);
      }
    }
    assert n == |keys| ==> removed == keys;
  }

  lemma SizeAfter(v: Value, gone: set<string>)
    requires v.Obj?
    ensures ValueSize(Obj(v.fields - gone)) == Left(v, gone)
  {
    hide FieldsSize;
    SizeAfterDelete(v, gone, v.fields.Keys - gone);
    assert (v.fields - gone).Keys == v.fields.Keys - gone;
  }
}
