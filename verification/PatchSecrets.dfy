/**
 audit/patch.go with the redactor of redact/redact.go: when a patch carries a value that Apply
 hides in the object it was built for.
 */
module PatchSecrets {
  import opened Tree
  import opened Keys
  import opened Pointer
  import opened Patch
  import opened PatchMasks
  import opened PatchProof
  import D = Denials
  import R = Redaction
  import W = Redactor
  import PatchOrder
  import Tokens

  /** WithRedactor: Patch asks DeniesPath and writes Replacement. */
  ghost function Under(r: R.Rules): Patch.Redactor {
    Patch.Redactor(path => W.DeniesPath(r, path), r.replacement)
  }

  /** The operation carries a value that Apply would hide where it stands, other than the mask. */
  ghost predicate Leaks(op: Operation, r: R.Rules) {
    Carries(op, r.replacement, path => D.AppliesAbove(r, path))
  }

  /** Where a patch leaks: a changed place that is not denied, at which or above which an entry is
      masked out of DeniesPath's sight, or inside which one is masked. */
  ghost predicate LeakAt(b: Value, a: Value, r: R.Rules, p: seq<string>, steps: seq<R.Step>) {
    && ChangedAt(b, a, p) && !W.DeniesPath(r, p) && Stands(PatchOrder.At(a, p).value, r.replacement, steps)
    && (D.SomeOutOfSight(r, p) || D.MasksIn(r, p, R.NamesOf(steps)))
  }

  lemma AboveOrInside(r: R.Rules, p: seq<string>, more: seq<string>)
    ensures D.AppliesAbove(r, p + more) <==> D.AppliesAbove(r, p) || D.MasksIn(r, p, more)
  {
    hide R.Masks;
    var all := p + more;
    forall n | 0 < n <= |p|
      ensures all[..n] == p[..n]
    {
    }
    forall n | 0 < n <= |more|
      ensures all[..|p| + n] == p + more[..n]
    {
    }
    if n :| 0 < n <= |p| && R.Masks(r, p[..n]) {
      assert R.Masks(r, all[..n]);
    }
    if n :| 0 < n <= |more| && R.Masks(r, p + more[..n]) {
      assert R.Masks(r, all[..|p| + n]);
    }
    if n :| 0 < n <= |all| && R.Masks(r, all[..n]) {
      if n <= |p| {
        assert R.Masks(r, p[..n]);
      } else {
        assert all[..|p| + (n - |p|)] == p + more[..n - |p|];
      }
    }
  }

  lemma SecretIsLeak(b: Value, a: Value, r: R.Rules, p: seq<string>, steps: seq<R.Step>)
    ensures SecretAt(b, a, Under(r), path => D.AppliesAbove(r, path), p, steps) <==> LeakAt(b, a, r, p, steps)
  {
    hide ChangedAt, Stands, W.DeniesPath, D.AppliesAbove, D.MasksIn, D.SomeOutOfSight, R.NamesOf;
    AboveOrInside(r, p, R.NamesOf(steps));
    D.MissesExactly(r, p);
  }

  /** A patch under the event's own redactor carries a value that Apply would hide exactly in these
      places. */
  lemma LeaksExactly(b: Value, a: Value, r: R.Rules)
    requires b.Obj? && a.Obj?
    ensures (exists op :: op in PatchObjects(b, a, "", Redacts(Under(r))) && Leaks(op, r)) <==> exists p, steps :: LeakAt(b, a, r, p, steps)
  {
    hide PatchObjects, Carries, SecretAt, LeakAt;
    var secret: seq<string> -> bool := path => D.AppliesAbove(r, path);
    CarriesExactly(b, a, Under(r), secret);
    if p, steps :| SecretAt(b, a, Under(r), secret, p, steps) {
      SecretIsLeak(b, a, r, p, steps);
    }
    if p, steps :| LeakAt(b, a, r, p, steps) {
      SecretIsLeak(b, a, r, p, steps);
      assert SecretAt(b, a, Under(r), secret, p, steps);
    }
    if op :| op in PatchObjects(b, a, "", Redacts(Under(r))) && Leaks(op, r) {
      assert Carries(op, r.replacement, secret);
    }
    if op :| op in PatchObjects(b, a, "", Redacts(Under(r))) && Carries(op, r.replacement, secret) {
      assert Leaks(op, r);
    }
  }

  /** One key with an object on both sides. */
  lemma OneObject(key: string, x: Value, y: Value, prefix: string, cfg: Config)
    requires x.Obj? && y.Obj?
    ensures PatchObjects(D.Nested(key, x), D.Nested(key, y), prefix, cfg) == PatchObjects(x, y, prefix + "/" + EscapePointer(key), cfg)
  {
    hide EscapePointer, Sorted;
    OneKey(D.Nested(key, x), D.Nested(key, y), key, prefix, cfg);
  }

  /** One key with a changed value that is not an object on both sides. */
  lemma OneChanged(key: string, x: Value, y: Value, prefix: string, cfg: Config)
    requires x != y && !(x.Obj? && y.Obj?)
    ensures var path := prefix + "/" + EscapePointer(key);
      PatchObjects(D.Nested(key, x), D.Nested(key, y), prefix, cfg) == [Operation(Replace, path, Carried(cfg, path, y))]
  {
    hide EscapePointer, Sorted;
    OneKey(D.Nested(key, x), D.Nested(key, y), key, prefix, cfg);
  }

  lemma OneKey(b: Value, a: Value, key: string, prefix: string, cfg: Config)
    requires b.Obj? && a.Obj? && b.fields.Keys == {key} == a.fields.Keys
    ensures PatchObjects(b, a, prefix, cfg) == PatchKey(b, a, key, prefix + "/" + EscapePointer(key), cfg)
  {
    hide EscapePointer, Sorted, PatchKey;
    assert b.fields.Keys + a.fields.Keys == {key};
    var keys := Sorted({key});
    assert key in keys && keys == [key];
    assert keys[..0] == [];
    assert PatchKeys(b, a, keys[..0], prefix, cfg) == [];
    assert PatchKeys(b, a, keys, prefix, cfg) == [] + PatchKey(b, a, key, prefix + "/" + EscapePointer(key), cfg);
  }

  lemma PinPath()
    ensures "" + "/" + EscapePointer("user") + "/" + EscapePointer("secret") + "/" + EscapePointer("pin") == "/user/secret/pin"
    ensures PathSegments("/user/secret/pin") == ["user", "secret", "pin"]
  {
    hide EscapePointer, PathSegments, Render;
    PlainPointer("user");
    PlainPointer("secret");
    PlainPointer("pin");
    RenderSnoc([], "user");
    RenderSnoc(["user"], "secret");
    RenderSnoc(["user", "secret"], "pin");
    assert [] + ["user"] == ["user"] && ["user"] + ["secret"] == ["user", "secret"];
    assert ["user", "secret"] + ["pin"] == ["user", "secret", "pin"];
    assert Render([]) == "" by {
      RootPointer();
    }
    assert "" + "/" + "user" + "/" + "secret" + "/" + "pin" == "/user/secret/pin";
  }

  lemma RootPointer()
    ensures Render([]) == ""
  {
  }

  predicate OnlyUserSecret(r: R.Rules) {
    && r.entries == [] && r.globs == [] && r.kept == {"rpc.mcp.session"} && r.maxDepth >= 1
    && r.paths == [[R.Words(Tokens.Tokenize("user", r.letters)), R.Words(Tokens.Tokenize("secret", r.letters))]]
  }

  function User(pin: Value): Value {
    D.Nested("user", D.Nested("secret", D.Nested("pin", pin)))
  }

  lemma PinLeaks(r: R.Rules, pin: Value)
    requires R.Masks(r, ["user", "secret"]) && pin != Str(r.replacement)
    requires PathSegments("/user/secret/pin") == ["user", "secret", "pin"]
    ensures Leaks(Operation(Replace, "/user/secret/pin", pin), r)
  {
    hide R.Masks, PathSegments;
    var path, op := ["user", "secret", "pin"], Operation(Replace, "/user/secret/pin", pin);
    assert path[..2] == ["user", "secret"];
    assert D.AppliesAbove(r, path);
    assert R.NamesOf([]) == [] && path + [] == path;
    assert CarriesAt(op, r.replacement, p => D.AppliesAbove(r, p), []);
  }

  /** The one dotted entry user.secret: a replace of /user/secret/pin carries the new pin, which
      Apply hides together with all of user.secret. */
  lemma PinIsCarried(r: R.Rules, before: Value, pin: Value)
    requires OnlyUserSecret(r) && before != pin && !pin.Obj? && pin != Str(r.replacement)
    ensures PatchObjects(User(before), User(pin), "", Redacts(Under(r))) == [Operation(Replace, "/user/secret/pin", pin)]
    ensures Leaks(Operation(Replace, "/user/secret/pin", pin), r)
    ensures R.ApplyMap(r, User(pin), [], 0) == D.Nested("user", D.Nested("secret", Str(r.replacement)))
  {
    hide PatchObjects, R.ApplyMap, EscapePointer, PathSegments, W.DeniesPath, Tokens.Tokenize, R.Masks;
    D.UserSecretMasked(r);
    D.BelowDottedEntry(r, pin);
    PinPath();
    var cfg := Redacts(Under(r));
    var x, y := D.Nested("pin", before), D.Nested("pin", pin);
    OneObject("user", D.Nested("secret", x), D.Nested("secret", y), "", cfg);
    OneObject("secret", x, y, "" + "/" + EscapePointer("user"), cfg);
    OneChanged("pin", before, pin, "" + "/" + EscapePointer("user") + "/" + EscapePointer("secret"), cfg);
    PinLeaks(r, pin);
  }
}
