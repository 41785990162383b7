/** What a patch promises its reader: it applies, in any order, and it is empty exactly when
    nothing changed. */
module PatchOrder {
  import opened GoBytes
  import opened Tree
  import opened Keys
  import opened Patch
  import opened PatchProof

  // ---------------------------------------------------------------------------------------
  // The patch turns before into after
  // ---------------------------------------------------------------------------------------

  /** Omit a redactor the patched object is after, exactly. */
  lemma {:induction false} WantedIsAfter(b: Value, a: Value, at: seq<string>)
    requires b.Obj? && a.Obj?
    ensures Wanted(b, a, at, Plain) == a
    decreases b
  {
    var w := Wanted(b, a, at, Plain);
    forall k | k in a.fields
      ensures w.fields[k] == a.fields[k]
    {
      if BothHoldObjects(b.fields, a.fields, k) {
        WantedIsAfter(b.fields[k], a.fields[k], at + [k]);
      }
    }
    assert w.fields == a.fields;
  }

  /** The operations Patch writes, read by their pointers and applied in order. */
  lemma PatchApplies(b: Value, a: Value, cfg: Config)
    requires b.Obj? && a.Obj?
    ensures ApplyEdits(ReadAll(PatchObjects(b, a, "", cfg)), b) == Some(Wanted(b, a, [], cfg))
    ensures cfg.Plain? ==> ApplyEdits(ReadAll(PatchObjects(b, a, "", cfg)), b) == Some(a)
  {
    hide PatchObjects, ObjectEdits, Wanted;
    RootEdits(b, a, cfg);
    ApplyObject(b, a, [], cfg);
    if cfg.Plain? {
      WantedIsAfter(b, a, []);
    }
  }

  lemma RootEdits(b: Value, a: Value, cfg: Config)
    requires b.Obj? && a.Obj?
    ensures ReadAll(PatchObjects(b, a, "", cfg)) == ObjectEdits(b, a, [], cfg)
  {
    hide PatchObjects, ObjectEdits;
    ReadObject(b, a, [], cfg);
    var es := ObjectEdits(b, a, [], cfg);
    forall i | 0 <= i < |es|
      ensures Under([], es)[i] == es[i]
    {
      assert [] + es[i].path == es[i].path;
    }
  }

  // ---------------------------------------------------------------------------------------
  // With a redactor
  // ---------------------------------------------------------------------------------------

  predicate Related(p: seq<string>, q: seq<string>) {
    p <= q || q <= p
  }

  /** The value at a key path, when every step stands in an object. */
  function At(v: Value, path: seq<string>): Option<Value> {
    if path == [] then Some(v)
    else if v.Obj? && path[0] in v.fields then At(v.fields[path[0]], path[1..])
    else None
  }

  /** A patch under a redactor differs from after only at, above or below a denied path. */
  lemma {:induction false} OnlyDeniedDiffers(b: Value, a: Value, at: seq<string>, r: Redactor, path: seq<string>)
    requires b.Obj? && a.Obj?
    requires forall q :: q != [] && Related(q, path) ==> !r.denies(at + q)
    ensures path != [] ==> At(Wanted(b, a, at, Redacts(r)), path) == At(a, path)
    decreases b
  {
    if path == [] || path[0] !in a.fields {
    } else {
      var k, rest := path[0], path[1..];
      assert path == [k] + rest;
      assert Related([k], path);
      if BothHoldObjects(b.fields, a.fields, k) && rest != [] {
        forall q | q != [] && Related(q, rest)
          ensures !r.denies((at + [k]) + q)
        {
          assert Related([k] + q, path);
          assert at + ([k] + q) == (at + [k]) + q;
        }
        OnlyDeniedDiffers(b.fields[k], a.fields[k], at + [k], r, rest);
      } else if BothHoldObjects(b.fields, a.fields, k) {
        forall q | q != []
          ensures !r.denies((at + [k]) + q)
        {
          assert Related([k] + q, path);
          assert at + ([k] + q) == (at + [k]) + q;
        }
        NothingDenied(b.fields[k], a.fields[k], at + [k], r);
      }
    }
  }

  lemma {:induction false} NothingDenied(b: Value, a: Value, at: seq<string>, r: Redactor)
    requires b.Obj? && a.Obj?
    requires forall q :: q != [] ==> !r.denies(at + q)
    ensures Wanted(b, a, at, Redacts(r)) == a
    decreases b
  {
    var w := Wanted(b, a, at, Redacts(r));
    forall k | k in a.fields
      ensures w.fields[k] == a.fields[k]
    {
      assert !r.denies(at + [k]);
      if BothHoldObjects(b.fields, a.fields, k) {
        forall q | q != []
          ensures !r.denies((at + [k]) + q)
        {
          assert at + ([k] + q) == (at + [k]) + q;
        }
        NothingDenied(b.fields[k], a.fields[k], at + [k], r);
      }
    }
    assert w.fields == a.fields;
  }

  /** An edit at a denied path that carries a value carries the mask. */
  ghost predicate AllMasked(es: seq<Edit>, at: seq<string>, r: Redactor) {
    forall i :: 0 <= i < |es| && !es[i].op.Remove? && r.denies(at + es[i].path) ==> es[i].value == Str(r.replacement)
  }

  lemma NestMasked(key: string, es: seq<Edit>, at: seq<string>, r: Redactor)
    requires AllMasked(es, at + [key], r)
    ensures AllMasked(Nest(key, es), at, r)
  {
    forall i | 0 <= i < |es|
      ensures at + ([key] + es[i].path) == (at + [key]) + es[i].path
    {
    }
  }

  /** An operation whose own path is denied carries the mask. What stands deeper inside its value
      is not asked about (PatchMasks.ExposesExactly). */
  lemma {:induction false} DeniedIsMasked(b: Value, a: Value, keys: seq<string>, at: seq<string>, r: Redactor)
    requires b.Obj? && a.Obj?
    ensures AllMasked(KeysEdits(b, a, keys, at, Redacts(r)), at, r)
    ensures var es := KeysEdits(b, a, keys, at, Redacts(r));
      forall i :: 0 <= i < |es| && !es[i].op.Remove? && r.denies(at + es[i].path) ==> es[i].value == Str(r.replacement)
    decreases b, |keys|
  {
    if keys == [] {
    } else {
      var key := keys[|keys| - 1];
      DeniedIsMasked(b, a, keys[..|keys| - 1], at, r);
      if BothHoldObjects(b.fields, a.fields, key) {
        var x, y := b.fields[key], a.fields[key];
        DeniedIsMasked(x, y, Sorted(x.fields.Keys + y.fields.Keys), at + [key], r);
        NestMasked(key, ObjectEdits(x, y, at + [key], Redacts(r)), at, r);
      } else {
        LeafMasked(b, a, key, at, r);
      }
      ConcatMasked(KeysEdits(b, a, keys[..|keys| - 1], at, Redacts(r)), KeyEdits(b, a, key, at, Redacts(r)), at, r);
    }
  }

  lemma LeafMasked(b: Value, a: Value, key: string, at: seq<string>, r: Redactor)
    requires b.Obj? && a.Obj? && !BothHoldObjects(b.fields, a.fields, key)
    ensures AllMasked(KeyEdits(b, a, key, at, Redacts(r)), at, r)
  {
  }

  lemma ConcatMasked(x: seq<Edit>, y: seq<Edit>, at: seq<string>, r: Redactor)
    requires AllMasked(x, at, r) && AllMasked(y, at, r)
    ensures AllMasked(x + y, at, r)
  {
  }

  // ---------------------------------------------------------------------------------------
  // Any order
  // ---------------------------------------------------------------------------------------

  ghost predicate Unrelated(es: seq<Edit>) {
    && (forall i :: 0 <= i < |es| ==> es[i].path != [])
    && (forall i, j :: 0 <= i < |es| && 0 <= j < |es| && i != j ==> !Related(es[i].path, es[j].path))
  }

  /** No two operations of a patch name the same path, and none names a path above another's. */
  lemma {:induction false} PathsUnrelated(b: Value, a: Value, keys: seq<string>, at: seq<string>, cfg: Config)
    requires b.Obj? && a.Obj? && Distinct(keys)
    ensures Unrelated(KeysEdits(b, a, keys, at, cfg))
    decreases b, |keys|
  {
    if keys == [] {
    } else {
      var front, key := keys[..|keys| - 1], keys[|keys| - 1];
      PathsUnrelated(b, a, front, at, cfg);
      EditPaths(b, a, front, at, cfg);
      var x, y := KeysEdits(b, a, front, at, cfg), KeyEdits(b, a, key, at, cfg);
      if BothHoldObjects(b.fields, a.fields, key) {
        var s, t := b.fields[key], a.fields[key];
        PathsUnrelated(s, t, Sorted(s.fields.Keys + t.fields.Keys), at + [key], cfg);
        NestUnrelated(key, ObjectEdits(s, t, at + [key], cfg));
      }
      assert forall j :: 0 <= j < |y| ==> y[j].path != [] && y[j].path[0] == key;
      JoinUnrelated(x, y, key, front);
    }
  }

  /** So no path is empty, another's, or the beginning of another's. */
  lemma PathsApart(b: Value, a: Value, keys: seq<string>, at: seq<string>, cfg: Config, i: nat, j: nat)
    requires b.Obj? && a.Obj? && Distinct(keys)
    requires i < |KeysEdits(b, a, keys, at, cfg)| && j < |KeysEdits(b, a, keys, at, cfg)|
    ensures var es := KeysEdits(b, a, keys, at, cfg);
      es[i].path != [] && (i != j ==> !(es[i].path <= es[j].path))
  {
    hide KeysEdits;
    PathsUnrelated(b, a, keys, at, cfg);
  }

  lemma NestUnrelated(key: string, es: seq<Edit>)
    requires Unrelated(es)
    ensures Unrelated(Nest(key, es))
  {
    forall i, j | 0 <= i < |es| && 0 <= j < |es| && i != j
      ensures !Related([key] + es[i].path, [key] + es[j].path)
    {
      ConsRelated(key, es[i].path, es[j].path);
    }
  }

  lemma ConsRelated(key: string, p: seq<string>, q: seq<string>)
    ensures [key] + p <= [key] + q <==> p <= q
    ensures [key] + q <= [key] + p <==> q <= p
  {
    assert ([key] + p)[1..] == p && ([key] + q)[1..] == q;
    if [key] + p <= [key] + q {
      assert ([key] + q)[..1 + |p|][1..] == q[..|p|];
    }
    if [key] + q <= [key] + p {
      assert ([key] + p)[..1 + |q|][1..] == p[..|q|];
    }
  }

  lemma JoinUnrelated(x: seq<Edit>, y: seq<Edit>, key: string, keys: seq<string>)
    requires Unrelated(x) && Unrelated(y) && key !in keys
    requires forall i :: 0 <= i < |x| ==> x[i].path != [] && x[i].path[0] in keys
    requires forall j :: 0 <= j < |y| ==> y[j].path != [] && y[j].path[0] == key
    ensures Unrelated(x + y)
  {
    forall i, j | 0 <= i < |x| && 0 <= j < |y|
      ensures !Related(x[i].path, y[j].path)
    {
      assert x[i].path[0] != y[j].path[0];
    }
  }

  function Then(d: Option<Value>, e: Edit): Option<Value> {
    if d.None? then None else ApplyEdit(e, d.value)
  }

  /** What an edit does to the value at its first key. */
  function Effect(e: Edit, child: Option<Value>): Option<Option<Value>>
    requires e.path != []
  {
    if |e.path| == 1 then
      if e.op.Add? then Some(Some(e.value))
      else if child.None? then None
      else if e.op.Remove? then Some(None) else Some(Some(e.value))
    else if child.None? then None
    else
      var inner := ApplyEdit(e.(path := e.path[1..]), child.value);
      if inner.None? then None else Some(inner)
  }

  function Child(doc: Object, key: string): Option<Value> {
    if key in doc then Some(doc[key]) else None
  }

  function SetChild(doc: Object, key: string, child: Option<Value>): Object {
    if child.None? then doc - {key} else doc[key := child.value]
  }

  lemma ApplyShape(e: Edit, doc: Object)
    requires e.path != []
    ensures ApplyEdit(e, Obj(doc)) ==
      var c := Effect(e, Child(doc, e.path[0]));
      if c.None? then None else Some(Obj(SetChild(doc, e.path[0], c.value)))
  {
  }

  lemma SetChildTwice(doc: Object, k: string, x: Option<Value>, y: Option<Value>)
    ensures Child(SetChild(doc, k, x), k) == x
    ensures SetChild(SetChild(doc, k, x), k, y) == SetChild(doc, k, y)
  {
  }

  lemma SetChildSwap(doc: Object, k: string, x: Option<Value>, l: string, y: Option<Value>)
    requires k != l
    ensures Child(SetChild(doc, k, x), l) == Child(doc, l)
    ensures SetChild(SetChild(doc, k, x), l, y) == SetChild(SetChild(doc, l, y), k, x)
  {
    assert SetChild(SetChild(doc, k, x), l, y) == SetChild(SetChild(doc, l, y), k, x);
  }

  /** Two edits on unrelated paths commute, failures included. */
  lemma {:induction false} Commute(e: Edit, f: Edit, doc: Value)
    requires e.path != [] && f.path != [] && !Related(e.path, f.path)
    ensures Then(ApplyEdit(e, doc), f) == Then(ApplyEdit(f, doc), e)
    decreases |e.path|
  {
    if !doc.Obj? {
    } else {
      var k, l := e.path[0], f.path[0];
      var m := doc.fields;
      ApplyShape(e, m);
      ApplyShape(f, m);
      var c, d := Effect(e, Child(m, k)), Effect(f, Child(m, l));
      if k != l {
        CommuteApart(e, f, m);
      } else {
        assert e.path == [k] + e.path[1..] && f.path == [k] + f.path[1..];
        ConsRelated(k, e.path[1..], f.path[1..]);
        if k in m {
          var e', f' := e.(path := e.path[1..]), f.(path := f.path[1..]);
          Commute(e', f', m[k]);
          if c.Some? {
            ApplyShape(f, SetChild(m, k, c.value));
            SetChildTwice(m, k, c.value, Then(c.value, f'));
          }
          if d.Some? {
            ApplyShape(e, SetChild(m, k, d.value));
            SetChildTwice(m, k, d.value, Then(d.value, e'));
          }
        }
      }
    }
  }

  lemma CommuteApart(e: Edit, f: Edit, m: Object)
    requires e.path != [] && f.path != [] && e.path[0] != f.path[0]
    ensures Then(ApplyEdit(e, Obj(m)), f) == Then(ApplyEdit(f, Obj(m)), e)
  {
    hide ApplyEdit, Effect, SetChild;
    var k, l := e.path[0], f.path[0];
    ApplyShape(e, m);
    ApplyShape(f, m);
    var c, d := Effect(e, Child(m, k)), Effect(f, Child(m, l));
    if c.Some? {
      ApplyShape(f, SetChild(m, k, c.value));
      SetChildSwap(m, k, c.value, l, if d.Some? then d.value else None);
    }
    if d.Some? {
      ApplyShape(e, SetChild(m, l, d.value));
      SetChildSwap(m, l, d.value, k, if c.Some? then c.value else None);
    }
  }

  function Omit<T>(s: seq<T>, i: nat): seq<T>
    requires i < |s|
  {
    s[..i] + s[i + 1..]
  }

  /** Any edit of an unrelated list may go first. */
  lemma {:induction false} GoFirst(es: seq<Edit>, i: nat, doc: Value)
    requires Unrelated(es) && i < |es|
    ensures ApplyEdits(es, doc) == ApplyEdits([es[i]] + Omit(es, i), doc)
    decreases i
  {
    if i == 0 {
      assert [es[0]] + Omit(es, 0) == es;
    } else {
      var e, f, rest := es[0], es[i], Omit(es[1..], i - 1);
      Commute(e, f, doc);
      assert Omit(es, i) == [e] + rest;
      TwoSteps(e, f, rest, doc);
      TwoSteps(f, e, rest, doc);
      assert [e] + ([f] + rest) == [e] + [f] + rest && [f] + ([e] + rest) == [f] + [e] + rest;
      var next := ApplyEdit(e, doc);
      if next.Some? {
        GoFirst(es[1..], i - 1, next.value);
        assert ([e] + ([f] + rest))[1..] == [f] + rest;
      }
    }
  }

  lemma TwoSteps(e: Edit, f: Edit, rest: seq<Edit>, doc: Value)
    ensures ApplyEdits([e] + [f] + rest, doc) ==
      var d := Then(ApplyEdit(e, doc), f);
      if d.None? then None else ApplyEdits(rest, d.value)
  {
    var all := [e] + [f] + rest;
    assert all[1..] == [f] + rest && ([f] + rest)[1..] == rest;
  }

  lemma SameLength<T>(s: seq<T>, t: seq<T>)
    requires multiset(s) == multiset(t)
    ensures |s| == |t|
  {
    assert |multiset(s)| == |s| && |multiset(t)| == |t|;
  }

  /** The first element of a reordering, found in the original. */
  lemma PickOut<T>(s: seq<T>, t: seq<T>) returns (i: nat)
    requires multiset(s) == multiset(t) && t != []
    ensures i < |s| && s[i] == t[0]
    ensures multiset(Omit(s, i)) == multiset(t[1..])
  {
    assert t[0] in multiset(s);
    i :| 0 <= i < |s| && s[i] == t[0];
    assert s == s[..i] + [s[i]] + s[i + 1..];
    assert t == [t[0]] + t[1..];
    assert multiset(Omit(s, i)) == multiset(s) - multiset{s[i]};
    assert multiset(t[1..]) == multiset(t) - multiset{t[0]};
  }

  /** Applying an unrelated list gives the same in every order. */
  lemma {:induction false} AnyOrder(es: seq<Edit>, fs: seq<Edit>, doc: Value)
    requires Unrelated(es) && multiset(es) == multiset(fs)
    ensures ApplyEdits(fs, doc) == ApplyEdits(es, doc)
    decreases |fs|
  {
    hide Unrelated, Omit, ApplyEdit;
    if fs == [] {
      SameLength(es, fs);
    } else {
      var i := PickOut(es, fs);
      GoFirst(es, i, doc);
      var rest := Omit(es, i);
      OmitUnrelated(es, i);
      assert ([es[i]] + rest)[1..] == rest;
      var next := ApplyEdit(fs[0], doc);
      if next.Some? {
        AnyOrder(rest, fs[1..], next.value);
      }
    }
  }

  lemma OmitUnrelated(es: seq<Edit>, i: nat)
    requires Unrelated(es) && i < |es|
    ensures Unrelated(Omit(es, i))
  {
    var r := Omit(es, i);
    forall x, y | 0 <= x < |r| && 0 <= y < |r| && x != y
      ensures !Related(r[x].path, r[y].path)
    {
      assert r[x] == es[if x < i then x else x + 1] && r[y] == es[if y < i then y else y + 1];
    }
  }

  /** Every reordering of a patch's operations still turns before into after. */
  lemma PatchAppliesInAnyOrder(b: Value, a: Value, cfg: Config, ops: seq<Operation>)
    requires b.Obj? && a.Obj? && multiset(ops) == multiset(PatchObjects(b, a, "", cfg))
    ensures ApplyEdits(ReadAll(ops), b) == Some(Wanted(b, a, [], cfg))
    ensures cfg.Plain? ==> ApplyEdits(ReadAll(ops), b) == Some(a)
  {
    hide PatchObjects, Wanted, KeysEdits, Sorted, Unrelated;
    PatchApplies(b, a, cfg);
    RootEdits(b, a, cfg);
    PathsUnrelated(b, a, Sorted(b.fields.Keys + a.fields.Keys), [], cfg);
    ReadPermutes(PatchObjects(b, a, "", cfg), ops);
    AnyOrder(ObjectEdits(b, a, [], cfg), ReadAll(ops), b);
  }

  lemma {:induction false} ReadPermutes(ops: seq<Operation>, qs: seq<Operation>)
    requires multiset(ops) == multiset(qs)
    ensures multiset(ReadAll(ops)) == multiset(ReadAll(qs))
    decreases |qs|
  {
    if qs == [] {
      SameLength(ops, qs);
    } else {
      var i := PickOut(ops, qs);
      ReadPermutes(Omit(ops, i), qs[1..]);
      ReadOmit(ops, i);
      ReadOmit(qs, 0);
      assert Omit(qs, 0) == qs[1..];
    }
  }

  lemma ReadOmit(ops: seq<Operation>, i: nat)
    requires i < |ops|
    ensures multiset(ReadAll(ops)) == multiset(ReadAll(Omit(ops, i))) + multiset{Read(ops[i])}
  {
    hide ReadAll, Read;
    var x, y := ReadAll(ops[..i]), ReadAll(ops[i + 1..]);
    assert ReadAll(ops) == x + [Read(ops[i])] + y;
    assert ReadAll(Omit(ops, i)) == x + y;
    CountMiddle(x, Read(ops[i]), y);
  }

  lemma CountMiddle<T>(x: seq<T>, m: T, y: seq<T>)
    ensures multiset(x + [m] + y) == multiset(x + y) + multiset{m}
  {
  }
}
