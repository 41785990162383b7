/** value.go, valueSize: the approximate size of a tree value, in bytes. */
module Sizes {
  import opened Tree

  /** What one key of an object costs. */
  ghost function EntrySize(v: Value, k: string): nat
    requires v.Obj? && k in v.fields
    decreases v, 0, 0
  {
    |k| + 8 + ValueSize(v.fields[k])
  }

  ghost function ValueSize(v: Value): nat
    decreases v, 2, 0
  {
    match v
    case Null => 0
    case Bool(_) => 1
    case Num(_) => 8
    case Int(_) => 16
    case Str(s) => |s|
    case Arr(items) => ItemsSize(v, |items|)
    case Obj(fields) => FieldsSize(v, fields.Keys)
  }

  /** The first n items. */
  ghost function ItemsSize(v: Value, n: nat): nat
    requires v.Arr? && n <= |v.items|
    decreases v, 1, n
  {
    if n == 0 then 0 else ItemsSize(v, n - 1) + 8 + ValueSize(v.items[n - 1])
  }

  /** The entries of some of the keys, in whatever order they are added up. */
  ghost function FieldsSize(v: Value, ks: set<string>): nat
    requires v.Obj? && ks <= v.fields.Keys
    decreases v, 1, |ks|
  {
    if ks == {} then 0
    else
      var k :| k in ks;
      EntrySize(v, k) + FieldsSize(v, ks - {k})
  }

  /** The order does not matter. */
  lemma {:induction false} TakeOut(v: Value, ks: set<string>, k: string)
    requires v.Obj? && ks <= v.fields.Keys && k in ks
    ensures FieldsSize(v, ks) == EntrySize(v, k) + FieldsSize(v, ks - {k})
    decreases |ks|
  {
    hide EntrySize, ValueSize;
    var first :| first in ks && FieldsSize(v, ks) == EntrySize(v, first) + FieldsSize(v, ks - {first});
    if first != k {
      TakeOut(v, ks - {first}, k);
      TakeOut(v, ks - {k}, first);
      assert ks - {first} - {k} == ks - {k} - {first};
    }
  }

  lemma {:induction false} SizeOfUnion(v: Value, a: set<string>, b: set<string>)
    requires v.Obj? && a + b <= v.fields.Keys && a !! b
    ensures FieldsSize(v, a + b) == FieldsSize(v, a) + FieldsSize(v, b)
    decreases |a|
  {
    hide EntrySize, FieldsSize;
    if a == {} {
      assert a + b == b;
      NoFields(v);
    } else {
      var k :| k in a;
      TakeOut(v, a + b, k);
      TakeOut(v, a, k);
      assert a + b - {k} == a - {k} + b;
      SizeOfUnion(v, a - {k}, b);
    }
  }

  lemma NoFields(v: Value)
    requires v.Obj?
    ensures FieldsSize(v, {}) == 0
  {
  }

  /** Fewer keys are no larger. */
  lemma SizeGrows(v: Value, a: set<string>, b: set<string>)
    requires v.Obj? && a <= b <= v.fields.Keys
    ensures FieldsSize(v, a) <= FieldsSize(v, b)
  {
    hide FieldsSize;
    SizeOfUnion(v, a, b - a);
    assert a + (b - a) == b;
  }

  /** Deleting keys leaves the size of the others. */
  lemma {:induction false} SizeAfterDelete(v: Value, gone: set<string>, ks: set<string>)
    requires v.Obj? && ks <= v.fields.Keys - gone
    ensures FieldsSize(Obj(v.fields - gone), ks) == FieldsSize(v, ks)
    decreases |ks|
  {
    var w := Obj(v.fields - gone);
    if ks != {} {
      hide FieldsSize, ValueSize;
      var k :| k in ks;
      TakeOut(v, ks, k);
      TakeOut(w, ks, k);
      SizeAfterDelete(v, gone, ks - {k});
      assert w.fields[k] == v.fields[k];
    } else {
      NoFields(v);
      NoFields(w);
    }
  }

  /** Giving a key another value, or adding it. */
  lemma SizeOfUpdate(v: Value, k: string, x: Value)
    requires v.Obj?
    ensures ValueSize(Obj(v.fields[k := x])) ==
      |k| + 8 + ValueSize(x) + ValueSize(v) - if k in v.fields then EntrySize(v, k) else 0
  {
    hide FieldsSize;
    var w := Obj(v.fields[k := x]);
    var rest := v.fields.Keys - {k};
    assert w.fields.Keys - {k} == rest && w.fields - {k} == v.fields - {k};
    TakeOut(w, w.fields.Keys, k);
    SizeAfterDelete(w, {k}, rest);
    SizeAfterDelete(v, {k}, rest);
    if k in v.fields {
      TakeOut(v, v.fields.Keys, k);
    } else {
      assert rest == v.fields.Keys;
    }
  }

  /** valueSize as it runs: one loop for each container, in any order for a map. */
  method ValueSizeOf(v: Value) returns (size: nat)
    ensures size == ValueSize(v)
    decreases v
  {
    match v {
      case Null => return 0;
      case Bool(_) => return 1;
      case Num(_) => return 8;
      case Int(_) => return 16;
      case Str(s) => return |s|;
      case Arr(items) =>
        size := 0;
        for i := 0 to |items|
          invariant size == ItemsSize(v, i)
        {
          var item := ValueSizeOf(items[i]);
          size := size + 8 + item;
        }
      case Obj(fields) =>
        size := 0;
        var rest := fields.Keys;
        while rest != {}
          invariant rest <= fields.Keys && size + FieldsSize(v, rest) == FieldsSize(v, fields.Keys)
          decreases |rest|
        {
          hide FieldsSize;
          var key :| key in rest;
          var value := ValueSizeOf(fields[key]);
          TakeOut(v, rest, key);
          size := size + |key| + 8 + value;
          rest := rest - {key};
        }
        NoFields(v);
    }
  }
}
