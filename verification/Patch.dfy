/**
 audit/patch.go: the operations that turn one object into another, as the code builds them,
 and what applying them means by section 4 of RFC 6902.
 */
module Patch {
  import opened GoBytes
  import opened Tree
  import opened Keys
  import opened Pointer

  datatype Op = Add | Remove | Replace

  /** A remove carries no value; Null stands for Go's nil. */
  datatype Operation = Operation(op: Op, path: string, value: Value)

  /** The redactor as Patch sees it: the paths it denies and the text it writes instead. */
  datatype Redactor = Redactor(denies: seq<string> -> bool, replacement: string)

  /** patchConfig; Plain is a nil *redact.Redactor. */
  datatype Config = Plain | Redacts(redactor: Redactor)

  /** patchConfig.value. */
  function Carried(cfg: Config, pointer: string, value: Value): Value {
    if cfg.Plain? then value
    else if cfg.redactor.denies(PathSegments(pointer)) then Str(cfg.redactor.replacement)
    else value
  }

  predicate BothHoldObjects(before: Object, after: Object, key: string) {
    key in before && key in after && before[key].Obj? && after[key].Obj?
  }

  /** What patchObjects appends for one key. */
  function KeyOperations(before: Object, after: Object, key: string, path: string, cfg: Config): seq<Operation>
  {
    if key !in before && key !in after then []
    else if key !in before then [Operation(Add, path, Carried(cfg, path, after[key]))]
    else if key !in after then [Operation(Remove, path, Null)]
    else if before[key] != after[key] then [Operation(Replace, path, Carried(cfg, path, after[key]))]
    else []
  }

  /** patchObjects below prefix. */
  ghost function PatchObjects(before: Value, after: Value, prefix: string, cfg: Config): seq<Operation>
    requires before.Obj? && after.Obj?
    decreases before, 2, 0
  {
    PatchKeys(before, after, Sorted(before.fields.Keys + after.fields.Keys), prefix, cfg)
  }

  ghost function PatchKeys(before: Value, after: Value, keys: seq<string>, prefix: string, cfg: Config): seq<Operation>
    requires before.Obj? && after.Obj?
    decreases before, 1, |keys|
  {
    if keys == [] then []
    else
      PatchKeys(before, after, keys[..|keys| - 1], prefix, cfg)
      + PatchKey(before, after, keys[|keys| - 1], prefix + "/" + EscapePointer(keys[|keys| - 1]), cfg)
  }

  ghost function PatchKey(before: Value, after: Value, key: string, path: string, cfg: Config): seq<Operation>
    requires before.Obj? && after.Obj?
    decreases before, 0, 0
  {
    if BothHoldObjects(before.fields, after.fields, key) then
      PatchObjects(before.fields[key], after.fields[key], path, cfg)
    else KeyOperations(before.fields, after.fields, key, path, cfg)
  }

  lemma PatchSnoc(before: Value, after: Value, keys: seq<string>, i: nat, prefix: string, cfg: Config)
    requires before.Obj? && after.Obj? && i < |keys|
    ensures PatchKeys(before, after, keys[..i + 1], prefix, cfg) ==
      PatchKeys(before, after, keys[..i], prefix, cfg)
      + PatchKey(before, after, keys[i], prefix + "/" + EscapePointer(keys[i]), cfg)
  {
    assert keys[..i + 1][..i] == keys[..i];
  }

  /** patchObjects as it runs: a loop over the sorted keys that appends, or walks down. */
  method BuildPatch(before: Value, after: Value, prefix: string, cfg: Config) returns (ops: seq<Operation>)
    requires before.Obj? && after.Obj?
    ensures ops == PatchObjects(before, after, prefix, cfg)
    decreases before
  {
    var keys := SortStrings(before.fields.Keys + after.fields.Keys);
    ops := [];
    assert PatchKeys(before, after, [], prefix, cfg) == [];
    assert PatchObjects(before, after, prefix, cfg) == PatchKeys(before, after, keys, prefix, cfg);
    hide PatchKeys, KeyOperations, PatchObjects, Sorted, EscapePointer, Distinct;
    for i := 0 to |keys|
      invariant ops == PatchKeys(before, after, keys[..i], prefix, cfg)
    {
      PatchSnoc(before, after, keys, i, prefix, cfg);
      var key := keys[i];
      var path := prefix + "/" + EscapePointer(key);
      if BothHoldObjects(before.fields, after.fields, key) {
        var nested := BuildPatch(before.fields[key], after.fields[key], path, cfg);
        ops := ops + nested;
      } else {
        ops := ops + KeyOperations(before.fields, after.fields, key, path, cfg);
      }
    }
    assert keys[..|keys|] == keys;
  }

  // ---------------------------------------------------------------------------------------
  // Applying a patch: section 4 of RFC 6902
  // ---------------------------------------------------------------------------------------

  datatype Edit = Edit(op: Op, path: seq<string>, value: Value)

  /** The object at every step of the path but the last must exist; add needs no target, and
      remove and replace need one (sections 4.1 to 4.3). Array targets are never reached. */
  function ApplyEdit(e: Edit, doc: Value): Option<Value>
    decreases |e.path|
  {
    if e.path == [] || !doc.Obj? then None
    else
      var key := e.path[0];
      if |e.path| == 1 then
        match e.op
        case Add => Some(Obj(doc.fields[key := e.value]))
        case Remove => if key in doc.fields then Some(Obj(doc.fields - {key})) else None
        case Replace => if key in doc.fields then Some(Obj(doc.fields[key := e.value])) else None
      else if key !in doc.fields then None
      else
        var inner := ApplyEdit(e.(path := e.path[1..]), doc.fields[key]);
        if inner.None? then None else Some(Obj(doc.fields[key := inner.value]))
  }

  function ApplyEdits(es: seq<Edit>, doc: Value): Option<Value> {
    if es == [] then Some(doc)
    else
      var next := ApplyEdit(es[0], doc);
      if next.None? then None else ApplyEdits(es[1..], next.value)
  }

  /** An operation as a reader of the patch understands it: its pointer, read back. */
  function Read(op: Operation): Edit {
    Edit(op.op, PathSegments(op.path), op.value)
  }

  function ReadAll(ops: seq<Operation>): (es: seq<Edit>)
    ensures |es| == |ops| && forall i :: 0 <= i < |es| ==> es[i] == Read(ops[i])
  {
    seq(|ops|, i requires 0 <= i < |ops| => Read(ops[i]))
  }
}
