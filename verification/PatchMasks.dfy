/**
 audit/patch.go: which values the operations of a patch carry, and so when a redacted patch
 carries a value at a denied path, and when its encoded form has an operation without a value.
 */
module PatchMasks {
  import opened GoBytes
  import opened Tree
  import opened Keys
  import opened Pointer
  import opened Patch
  import opened PatchProof
  import opened PatchOrder
  import Redaction

  // ---------------------------------------------------------------------------------------
  // Where a patch writes a value
  // ---------------------------------------------------------------------------------------

  predicate ObjectAt(v: Value, path: seq<string>) {
    At(v, path).Some? && At(v, path).value.Obj?
  }

  /** After has a value here that before has not, below objects that both have, and the two are
      not both objects. */
  predicate ChangedAt(b: Value, a: Value, path: seq<string>) {
    && path != [] && At(a, path).Some? && At(b, path) != At(a, path)
    && !(ObjectAt(b, path) && ObjectAt(a, path))
    && forall n :: 0 <= n < |path| ==> ObjectAt(b, path[..n]) && ObjectAt(a, path[..n])
  }

  /** Some edit writes v here. */
  predicate WritesAt(es: seq<Edit>, path: seq<string>, v: Value) {
    exists i :: 0 <= i < |es| && !es[i].op.Remove? && es[i].path == path && es[i].value == v
  }

  lemma AtStep(v: Value, key: string, path: seq<string>)
    ensures At(v, [key] + path) == if v.Obj? && key in v.fields then At(v.fields[key], path) else None
    ensures At(v, []) == Some(v)
  {
    assert ([key] + path)[1..] == path;
  }

  lemma ChangedBelow(b: Value, a: Value, key: string, path: seq<string>)
    requires b.Obj? && a.Obj? && path != []
    ensures ChangedAt(b, a, [key] + path) <==> BothHoldObjects(b.fields, a.fields, key) && ChangedAt(b.fields[key], a.fields[key], path)
  {
    hide At;
    var whole := [key] + path;
    AtStep(b, key, path);
    AtStep(a, key, path);
    AtStep(b, key, []);
    AtStep(a, key, []);
    assert whole[..1] == [key] + [] && whole[..0] == [];
    if ChangedAt(b, a, whole) {
      assert ObjectAt(b, whole[..1]) && ObjectAt(a, whole[..1]);
    }
    if key in b.fields && key in a.fields {
      AtStep(b.fields[key], "", []);
      AtStep(a.fields[key], "", []);
      forall n | 0 <= n < |path|
        ensures ObjectAt(b, whole[..n + 1]) == ObjectAt(b.fields[key], path[..n])
        ensures ObjectAt(a, whole[..n + 1]) == ObjectAt(a.fields[key], path[..n])
      {
        assert whole[..n + 1] == [key] + path[..n];
        AtStep(b, key, path[..n]);
        AtStep(a, key, path[..n]);
      }
      assert path[..0] == [];
      if ChangedAt(b, a, whole) {
        forall n | 0 <= n < |path|
          ensures ObjectAt(b.fields[key], path[..n]) && ObjectAt(a.fields[key], path[..n])
        {
          assert ObjectAt(b, whole[..n + 1]);
        }
      }
      if BothHoldObjects(b.fields, a.fields, key) && ChangedAt(b.fields[key], a.fields[key], path) {
        forall n | 0 <= n < |whole|
          ensures ObjectAt(b, whole[..n]) && ObjectAt(a, whole[..n])
        {
          if n > 0 {
            assert ObjectAt(b.fields[key], path[..n - 1]);
          }
        }
      }
    }
  }

  lemma ChangedHere(b: Value, a: Value, key: string)
    requires b.Obj? && a.Obj?
    ensures ChangedAt(b, a, [key]) <==>
      && key in a.fields && !BothHoldObjects(b.fields, a.fields, key)
      && (key in b.fields ==> b.fields[key] != a.fields[key])
  {
    hide At;
    AtStep(b, key, []);
    AtStep(a, key, []);
    assert [key] + [] == [key] && [key][..0] == [];
    if key in b.fields {
      AtStep(b.fields[key], "", []);
    }
    if key in a.fields {
      AtStep(a.fields[key], "", []);
    }
  }

  /** The adds and replaces of a patch are exactly the changed places, each with the value of
      after, or the mask where the redactor denies that place. */
  lemma {:induction false} WritesExactly(b: Value, a: Value, keys: seq<string>, at: seq<string>, cfg: Config, path: seq<string>, v: Value)
    requires b.Obj? && a.Obj?
    ensures WritesAt(KeysEdits(b, a, keys, at, cfg), path, v) <==>
      && path != [] && path[0] in keys && ChangedAt(b, a, path)
      && v == Masked(cfg, at + path, At(a, path).value)
    decreases b, 1, |keys|
  {
    hide KeyEdits, ChangedAt, At, Masked;
    if keys == [] {
    } else {
      var front, key := keys[..|keys| - 1], keys[|keys| - 1];
      assert forall k :: k in keys <==> k in front || k == key;
      WritesExactly(b, a, front, at, cfg, path, v);
      WritesForKey(b, a, key, at, cfg, path, v);
      WritesConcat(KeysEdits(b, a, front, at, cfg), KeyEdits(b, a, key, at, cfg), path, v);
    }
  }

  lemma WritesConcat(x: seq<Edit>, y: seq<Edit>, path: seq<string>, v: Value)
    ensures WritesAt(x + y, path, v) <==> WritesAt(x, path, v) || WritesAt(y, path, v)
  {
    if i :| 0 <= i < |x| && !x[i].op.Remove? && x[i].path == path && x[i].value == v {
      assert (x + y)[i] == x[i];
    }
    if i :| 0 <= i < |y| && !y[i].op.Remove? && y[i].path == path && y[i].value == v {
      assert (x + y)[|x| + i] == y[i];
    }
  }

  lemma {:induction false} WritesForKey(b: Value, a: Value, key: string, at: seq<string>, cfg: Config, path: seq<string>, v: Value)
    requires b.Obj? && a.Obj?
    ensures WritesAt(KeyEdits(b, a, key, at, cfg), path, v) <==>
      && path != [] && path[0] == key && ChangedAt(b, a, path)
      && v == Masked(cfg, at + path, At(a, path).value)
    decreases b, 0, 0
  {
    hide Sorted, KeysEdits, ChangedAt, At, Masked;
    ChangedHere(b, a, key);
    if BothHoldObjects(b.fields, a.fields, key) {
      var x, y := b.fields[key], a.fields[key];
      var es := ObjectEdits(x, y, at + [key], cfg);
      NestWrites(key, es, path, v);
      if path != [] && path[0] == key {
        var rest := path[1..];
        assert path == [key] + rest && (at + [key]) + rest == at + path;
        WritesExactly(x, y, Sorted(x.fields.Keys + y.fields.Keys), at + [key], cfg, rest, v);
        AtStep(a, key, rest);
        if rest == [] {
          assert path == [key];
        } else {
          ChangedBelow(b, a, key, rest);
          ChangedInKeys(x, y, rest);
        }
      }
    } else {
      WritesLeaf(b, a, key, at, cfg, path, v);
    }
  }

  lemma ChangedInKeys(b: Value, a: Value, path: seq<string>)
    requires b.Obj? && a.Obj? && path != []
    ensures ChangedAt(b, a, path) ==> path[0] in Sorted(b.fields.Keys + a.fields.Keys)
  {
    hide Sorted;
  }

  lemma NestWrites(key: string, es: seq<Edit>, path: seq<string>, v: Value)
    ensures WritesAt(Nest(key, es), path, v) <==> path != [] && path[0] == key && WritesAt(es, path[1..], v)
  {
    if path != [] && path[0] == key {
      if i :| 0 <= i < |es| && !es[i].op.Remove? && es[i].path == path[1..] && es[i].value == v {
        assert [key] + es[i].path == path;
        assert Nest(key, es)[i].path == path;
      }
    }
    if i :| 0 <= i < |es| && !Nest(key, es)[i].op.Remove? && Nest(key, es)[i].path == path && Nest(key, es)[i].value == v {
      assert ([key] + es[i].path)[1..] == es[i].path;
    }
  }

  lemma WritesLeaf(b: Value, a: Value, key: string, at: seq<string>, cfg: Config, path: seq<string>, v: Value)
    requires b.Obj? && a.Obj? && !BothHoldObjects(b.fields, a.fields, key)
    ensures WritesAt(KeyEdits(b, a, key, at, cfg), path, v) <==>
      && path != [] && path[0] == key && ChangedAt(b, a, path)
      && v == Masked(cfg, at + path, At(a, path).value)
  {
    hide ChangedAt, At, Masked, ObjectEdits;
    ChangedHere(b, a, key);
    if key in a.fields {
      AtStep(a, key, []);
      AtStep(a.fields[key], "", []);
    }
    assert [key] + [] == [key];
    LeafEdits(b, a, key, at, cfg);
    if path != [] && path[0] == key && path != [key] {
      assert path == [key] + path[1..];
      ChangedBelow(b, a, key, path[1..]);
    }
    hide KeyEdits;
    var es := KeyEdits(b, a, key, at, cfg);
    if ChangedAt(b, a, [key]) {
      assert WritesAt(es, path, v) <==> path == [key] && v == es[0].value;
    }
  }

  lemma LeafEdits(b: Value, a: Value, key: string, at: seq<string>, cfg: Config)
    requires b.Obj? && a.Obj? && !BothHoldObjects(b.fields, a.fields, key)
    ensures var es := KeyEdits(b, a, key, at, cfg);
      if key in a.fields && (key in b.fields ==> b.fields[key] != a.fields[key])
      then |es| == 1 && !es[0].op.Remove? && es[0].path == [key] && es[0].value == Masked(cfg, at + [key], a.fields[key])
      else forall i :: 0 <= i < |es| ==> es[i].op.Remove?
  {
    hide ObjectEdits, Masked;
  }

  // ---------------------------------------------------------------------------------------
  // Secret values that a patch carries
  // ---------------------------------------------------------------------------------------

  /** The operation carries, inside objects and arrays too, a value with secret names that is not
      the mask. */
  ghost predicate Carries(op: Operation, mask: string, secret: seq<string> -> bool) {
    !op.op.Remove? && exists steps :: CarriesAt(op, mask, secret, steps)
  }

  predicate CarriesAt(op: Operation, mask: string, secret: seq<string> -> bool, steps: seq<Redaction.Step>) {
    Stands(op.value, mask, steps) && secret(PathSegments(op.path) + Redaction.NamesOf(steps))
  }

  /** There is a value here, and it is not the mask. */
  predicate Stands(v: Value, mask: string, steps: seq<Redaction.Step>) {
    Redaction.Place(v, steps).Some? && Redaction.Place(v, steps) != Some(Str(mask))
  }

  /** At a changed place that is not denied, after holds a value with secret names. */
  predicate SecretAt(b: Value, a: Value, r: Redactor, secret: seq<string> -> bool, p: seq<string>, steps: seq<Redaction.Step>) {
    && ChangedAt(b, a, p) && !r.denies(p)
    && Stands(At(a, p).value, r.replacement, steps) && secret(p + Redaction.NamesOf(steps))
  }

  /** An operation of the patch that writes v here, and nothing else, is a changed place. */
  lemma OperationAt(b: Value, a: Value, cfg: Config, p: seq<string>, v: Value)
    requires b.Obj? && a.Obj?
    ensures WritesAt(ReadAll(PatchObjects(b, a, "", cfg)), p, v) <==> ChangedAt(b, a, p) && v == Masked(cfg, p, At(a, p).value)
  {
    hide PatchObjects, KeysEdits, WritesAt, ChangedAt, Masked, At, Sorted;
    RootEdits(b, a, cfg);
    WritesExactly(b, a, Sorted(b.fields.Keys + a.fields.Keys), [], cfg, p, v);
    assert [] + p == p;
    if ChangedAt(b, a, p) {
      NotEmpty(b, a, p);
      ChangedInKeys(b, a, p);
    }
  }

  lemma NotEmpty(b: Value, a: Value, p: seq<string>)
    requires ChangedAt(b, a, p)
    ensures p != [] && At(a, p).Some?
  {
  }

  lemma CarriedIsSecret(b: Value, a: Value, r: Redactor, secret: seq<string> -> bool, op: Operation)
    returns (p: seq<string>, steps: seq<Redaction.Step>)
    requires b.Obj? && a.Obj? && op in PatchObjects(b, a, "", Redacts(r)) && Carries(op, r.replacement, secret)
    ensures SecretAt(b, a, r, secret, p, steps)
  {
    hide PatchObjects, ChangedAt, At, PathSegments, Stands, Redaction.NamesOf;
    var ops := PatchObjects(b, a, "", Redacts(r));
    var i :| 0 <= i < |ops| && ops[i] == op;
    p := PathSegments(op.path);
    steps :| CarriesAt(op, r.replacement, secret, steps);
    assert ReadAll(ops)[i] == Read(op);
    assert WritesAt(ReadAll(ops), p, op.value);
    OperationAt(b, a, Redacts(r), p, op.value);
    NotEmpty(b, a, p);
    MaskIsAll(r.replacement, steps);
  }

  /** Nothing stands in the mask but the mask. */
  lemma MaskIsAll(mask: string, steps: seq<Redaction.Step>)
    ensures !Stands(Str(mask), mask, steps)
  {
  }

  lemma SecretIsCarried(b: Value, a: Value, r: Redactor, secret: seq<string> -> bool, p: seq<string>, steps: seq<Redaction.Step>)
    returns (op: Operation)
    requires b.Obj? && a.Obj? && SecretAt(b, a, r, secret, p, steps)
    ensures op in PatchObjects(b, a, "", Redacts(r)) && Carries(op, r.replacement, secret)
  {
    hide PatchObjects, ChangedAt, At, PathSegments, Stands, Redaction.NamesOf;
    var ops := PatchObjects(b, a, "", Redacts(r));
    NotEmpty(b, a, p);
    var v := At(a, p).value;
    OperationAt(b, a, Redacts(r), p, v);
    var i :| 0 <= i < |ReadAll(ops)| && !ReadAll(ops)[i].op.Remove? && ReadAll(ops)[i].path == p && ReadAll(ops)[i].value == v;
    op := ops[i];
    assert CarriesAt(op, r.replacement, secret, steps);
  }

  /** Whatever names are secret, a patch carries a value with such names exactly when it stands at
      or inside a changed place that the redactor does not deny. */
  lemma CarriesExactly(b: Value, a: Value, r: Redactor, secret: seq<string> -> bool)
    requires b.Obj? && a.Obj?
    ensures (exists op :: op in PatchObjects(b, a, "", Redacts(r)) && Carries(op, r.replacement, secret))
      <==> exists p, steps :: SecretAt(b, a, r, secret, p, steps)
  {
    hide PatchObjects, SecretAt, Carries;
    var ops := PatchObjects(b, a, "", Redacts(r));
    if op :| op in ops && Carries(op, r.replacement, secret) {
      var p, steps := CarriedIsSecret(b, a, r, secret, op);
    }
    if p, steps :| SecretAt(b, a, r, secret, p, steps) {
      var op := SecretIsCarried(b, a, r, secret, p, steps);
    }
  }

  /** The operation carries a value at a denied path, other than the mask. */
  ghost predicate Exposes(op: Operation, r: Redactor) {
    Carries(op, r.replacement, r.denies)
  }

  /** The redactor is asked about the path of each operation and no deeper: a patch carries a
      denied value exactly when a whole object or array is written, at a path that is not denied,
      with a denied value inside it. */
  lemma ExposesExactly(b: Value, a: Value, r: Redactor)
    requires b.Obj? && a.Obj?
    ensures (exists op :: op in PatchObjects(b, a, "", Redacts(r)) && Exposes(op, r))
      <==> exists p, steps :: steps != [] && SecretAt(b, a, r, r.denies, p, steps)
  {
    hide PatchObjects, Carries, ChangedAt, Stands;
    CarriesExactly(b, a, r, r.denies);
    forall p, steps | SecretAt(b, a, r, r.denies, p, steps)
      ensures steps != []
    {
      NoNamesHere(p);
    }
    if op :| op in PatchObjects(b, a, "", Redacts(r)) && Exposes(op, r) {
      assert Carries(op, r.replacement, r.denies);
    }
    if op :| op in PatchObjects(b, a, "", Redacts(r)) && Carries(op, r.replacement, r.denies) {
      assert Exposes(op, r);
    }
  }

  lemma NoNamesHere(p: seq<string>)
    ensures p + Redaction.NamesOf([]) == p
  {
  }

  /** One key added to an empty object. */
  lemma OneAdded(key: string, v: Value, cfg: Config)
    ensures PatchObjects(Obj(map[]), Obj(map[key := v]), "", cfg) == [Operation(Add, "/" + EscapePointer(key), Masked(cfg, [key], v))]
    ensures PathSegments("/" + EscapePointer(key)) == [key]
  {
    hide EscapePointer, PathSegments, Sorted;
    var b, a := Obj(map[]), Obj(map[key := v]);
    assert b.fields.Keys + a.fields.Keys == {key};
    var keys := Sorted({key});
    assert key in keys && keys == [key];
    RenderSnoc([], key);
    assert [] + [key] == [key];
    assert "" + "/" + EscapePointer(key) == "/" + EscapePointer(key);
    assert keys[..0] == [];
    assert PatchKeys(b, a, keys[..0], "", cfg) == [];
    assert PatchKeys(b, a, keys, "", cfg) == [] + PatchKey(b, a, key, "/" + EscapePointer(key), cfg);
  }

  /** A key without a tilde or a slash stands for itself. */
  lemma {:induction false} EscapePlain(s: string)
    requires Without('~', s) && Without('/', s)
    ensures Tildes(s) == s && EscapeEach(s) == s
  {
    if s == "" {
    } else {
      EscapePlain(s[1..]);
    }
  }

  lemma EscapeTwice(s: string)
    ensures EscapePointer(s) == EscapeEach(s)
  {
    TildesIsReplace(s);
    SlashesIsReplace(s);
  }

  lemma PlainPointer(key: string)
    requires Without('~', key) && Without('/', key)
    ensures EscapePointer(key) == key
  {
    EscapePlain(key);
    EscapeTwice(key);
  }

  /** The password of an object at the end of these steps, of which there is at most one. */
  lemma PasswordInside(v: Value, x: Value, front: seq<Redaction.Step>)
    requires |front| <= 1 && (front != [] ==> front[0] == Redaction.Item(0))
    requires Redaction.Place(v, front) == Some(Obj(map["password" := x]))
    ensures var steps := front + [Redaction.Field("password")];
      Redaction.Place(v, steps) == Some(x) && Redaction.NamesOf(steps) == ["password"]
  {
    var last := [Redaction.Field("password")];
    assert last[1..] == [];
    if front == [] {
      assert front + last == last;
      assert Redaction.Place(x, []) == Some(x);
    } else {
      assert (front + last)[1..] == last && front[1..] == [];
      assert Redaction.Place(x, []) == Some(x);
      assert Redaction.NamesOf([]) == [];
    }
  }

  /** {} becomes {user: {password: s}} under a redactor that denies user.password and not user:
      the patch is one add of /user that carries s. */
  lemma AddedObjectKeepsSecret(s: string, r: Redactor)
    requires !r.denies(["user"]) && r.denies(["user", "password"]) && s != r.replacement
    ensures var user := Obj(map["password" := Str(s)]);
      && PatchObjects(Obj(map[]), Obj(map["user" := user]), "", Redacts(r)) == [Operation(Add, "/user", user)]
      && Exposes(Operation(Add, "/user", user), r)
  {
    hide PatchObjects, PathSegments, EscapePointer;
    var user := Obj(map["password" := Str(s)]);
    OneAdded("user", user, Redacts(r));
    PlainPointer("user");
    PasswordInside(user, Str(s), []);
    assert "/" + "user" == "/user" && ["user"] + ["password"] == ["user", "password"];
    assert CarriesAt(Operation(Add, "/user", user), r.replacement, r.denies, [] + [Redaction.Field("password")]);
  }

  /** {} becomes {users: [{password: s}]}: an array is written whole, so the one add of /users
      carries s. */
  lemma AddedArrayKeepsSecret(s: string, r: Redactor)
    requires !r.denies(["users"]) && r.denies(["users", "password"]) && s != r.replacement
    ensures var users := Arr([Obj(map["password" := Str(s)])]);
      && PatchObjects(Obj(map[]), Obj(map["users" := users]), "", Redacts(r)) == [Operation(Add, "/users", users)]
      && Exposes(Operation(Add, "/users", users), r)
  {
    hide PatchObjects, PathSegments, EscapePointer;
    var users := Arr([Obj(map["password" := Str(s)])]);
    OneAdded("users", users, Redacts(r));
    PlainPointer("users");
    PasswordInside(users, Str(s), [Redaction.Item(0)]);
    assert "/" + "users" == "/users" && ["users"] + ["password"] == ["users", "password"];
    assert CarriesAt(Operation(Add, "/users", users), r.replacement, r.denies, [Redaction.Item(0)] + [Redaction.Field("password")]);
  }

  // ---------------------------------------------------------------------------------------
  // The encoded patch
  // ---------------------------------------------------------------------------------------

  /** An add or a replace whose value is null is encoded without a value, which is no operation of
      section 4 of RFC 6902. */
  predicate Encodes(op: Operation) {
    op.op.Remove? || op.value != Null
  }

  /** The encoded patch is one exactly when no changed place that is not denied becomes null. */
  lemma EncodesExactly(b: Value, a: Value, cfg: Config)
    requires b.Obj? && a.Obj?
    ensures (forall op :: op in PatchObjects(b, a, "", cfg) ==> Encodes(op)) <==>
      !exists p :: ChangedAt(b, a, p) && At(a, p) == Some(Null) && !(cfg.Redacts? && cfg.redactor.denies(p))
  {
    hide PatchObjects, ChangedAt, At, PathSegments;
    var ops := PatchObjects(b, a, "", cfg);
    if op :| op in ops && !Encodes(op) {
      var i :| 0 <= i < |ops| && ops[i] == op;
      var p := PathSegments(op.path);
      assert ReadAll(ops)[i] == Read(op);
      assert WritesAt(ReadAll(ops), p, Null);
      OperationAt(b, a, cfg, p, Null);
      NotEmpty(b, a, p);
    }
    if p :| ChangedAt(b, a, p) && At(a, p) == Some(Null) && !(cfg.Redacts? && cfg.redactor.denies(p)) {
      OperationAt(b, a, cfg, p, Null);
      var i :| 0 <= i < |ReadAll(ops)| && !ReadAll(ops)[i].op.Remove? && ReadAll(ops)[i].path == p && ReadAll(ops)[i].value == Null;
      assert ops[i] in ops && !Encodes(ops[i]);
    }
  }

  /** {} becomes {a: null}: the patch is one add of /a, and it is encoded without a value. */
  lemma AddedNullHasNoValue()
    ensures PatchObjects(Obj(map[]), Obj(map["a" := Null]), "", Plain) == [Operation(Add, "/a", Null)]
    ensures !Encodes(Operation(Add, "/a", Null))
  {
    hide PatchObjects, PathSegments, EscapePointer;
    OneAdded("a", Null, Plain);
    EscapePlain("a");
    EscapeTwice("a");
    assert "/" + "a" == "/a";
  }
}
