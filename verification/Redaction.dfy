/**
 redact/redact.go, Apply: the masks on an event tree. Glob matching, the value patterns and the
 mask function are parameters.
 */
module Redaction {
  import opened GoBytes
  import opened Tree
  import opened Tokens
  import opened KeyMatch

  /** One segment of a dotted entry. */
  datatype SegMatcher = Glob(pattern: string) | Words(tokens: seq<string>)

  /** A compiled redactor. scan is applyPatterns, number is applyInteger with None for a number
      no pattern claims, and replace is the ReplaceFunc under its recover. */
  datatype Rules = Rules(
    disabled: bool,
    letters: Letters,
    entries: seq<string>,
    globs: seq<string>,
    paths: seq<seq<SegMatcher>>,
    kept: set<string>,
    glob: (string, string) -> bool,
    scan: (string, seq<string>) -> string,
    number: int -> Option<string>,
    replacement: string,
    replace: Option<string -> string>,
    maxDepth: int,
    maxScan: int)

  // ---------------------------------------------------------------------------------------
  // Which entries are masked
  // ---------------------------------------------------------------------------------------

  ghost predicate KeyDenied(r: Rules, key: string) {
    KeyMatches(r.entries, Tokenize(CutKey(key), r.letters), r.letters)
  }

  predicate GlobDenied(r: Rules, key: string) {
    exists k :: 0 <= k < |r.globs| && r.glob(r.globs[k], Lower(key, r.letters))
  }

  ghost predicate SegMatches(r: Rules, m: SegMatcher, name: string) {
    match m
    case Glob(pattern) => r.glob(pattern, Lower(name, r.letters))
    case Words(tokens) => HasRun(Tokenize(name, r.letters), tokens)
  }

  ghost predicate PathMatches(r: Rules, segs: seq<SegMatcher>, names: seq<string>) {
    |segs| == |names| && forall i :: 0 <= i < |segs| ==> SegMatches(r, segs[i], names[i])
  }

  ghost predicate PathDenied(r: Rules, names: seq<string>) {
    exists k :: 0 <= k < |r.paths| && PathMatches(r, r.paths[k], names)
  }

  function Full(names: seq<string>): string {
    if names == [] then "" else Join('.', names)
  }

  predicate Keeps(r: Rules, names: seq<string>) {
    Full(names) in r.kept
  }

  /** The denylist masks the entry with these names. */
  ghost predicate Masks(r: Rules, names: seq<string>)
    requires names != []
  {
    var key := names[|names| - 1];
    !Keeps(r, names) && (KeyDenied(r, key) || GlobDenied(r, key) || PathDenied(r, names))
  }

  // ---------------------------------------------------------------------------------------
  // Apply
  // ---------------------------------------------------------------------------------------

  function MaskValue(r: Rules, v: Value): Value {
    if r.replace.Some? && v.Str? then Str(r.replace.value(v.s)) else Str(r.replacement)
  }

  /** A value that is no container. */
  function Scanned(r: Rules, v: Value, names: seq<string>): (w: Value)
    requires !v.Obj? && !v.Arr?
    ensures !w.Obj? && !w.Arr?
  {
    match v
    case Str(s) => if |s| > r.maxScan then Str("[REDACTED:TOO_LARGE]") else Str(r.scan(s, names))
    case Num(n) => if r.number(n).Some? then Str(r.number(n).value) else v
    case Int(n) => if r.number(n).Some? then Str(r.number(n).value) else Num(n)
    case _ => v
  }

  ghost function ApplyMap(r: Rules, v: Value, names: seq<string>, depth: nat): (w: Value)
    requires v.Obj?
    ensures w.Obj? && w.fields.Keys == v.fields.Keys
    decreases v, 1
  {
    Obj(map k | k in v.fields ::
      if Masks(r, names + [k]) then MaskValue(r, v.fields[k])
      else ApplyValue(r, v.fields[k], names + [k], depth))
  }

  ghost function ApplyValue(r: Rules, v: Value, names: seq<string>, depth: nat): (w: Value)
    decreases v, 2
  {
    match v
    case Obj(_) => if depth + 1 > r.maxDepth then TooDeep() else ApplyMap(r, v, names, depth + 1)
    case Arr(items) => if depth + 1 > r.maxDepth then TooDeep() else ApplyItems(r, v, names, depth + 1)
    case _ => Scanned(r, v, names)
  }

  /** Array elements keep the names of the field that holds the array. */
  ghost function ApplyItems(r: Rules, v: Value, names: seq<string>, depth: nat): (w: Value)
    requires v.Arr?
    ensures w.Arr? && |w.items| == |v.items|
    decreases v, 1
  {
    Arr(seq(|v.items|, i requires 0 <= i < |v.items| => ApplyValue(r, v.items[i], names, depth)))
  }

  /** Apply, after the transforms. Under Disabled it does nothing. */
  ghost function Applied(r: Rules, event: Value): (w: Value)
    requires event.Obj?
    ensures w.Obj? && w.fields.Keys == event.fields.Keys
  {
    if r.disabled then event else ApplyMap(r, event, [], 0)
  }

  function TooDeep(): Value {
    Str("[REDACTED:DEPTH]")
  }

  // ---------------------------------------------------------------------------------------
  // Places in a tree
  // ---------------------------------------------------------------------------------------

  datatype Step = Field(key: string) | Item(i: nat)

  function Child(v: Value, step: Step): Option<Value> {
    match step
    case Field(key) => if v.Obj? && key in v.fields then Some(v.fields[key]) else None
    case Item(i) => if v.Arr? && i < |v.items| then Some(v.items[i]) else None
  }

  function Place(v: Value, steps: seq<Step>): Option<Value> {
    if steps == [] then Some(v)
    else
      var child := Child(v, steps[0]);
      if child.None? then None else Place(child.value, steps[1..])
  }

  /** The keys on the way. */
  function NamesOf(steps: seq<Step>): seq<string> {
    if steps == [] then []
    else (if steps[0].Field? then [steps[0].key] else []) + NamesOf(steps[1..])
  }

  /** The last step names an entry that the denylist masks. */
  ghost predicate EntryMasked(r: Rules, names: seq<string>, steps: seq<Step>) {
    steps != [] && steps[|steps| - 1].Field? && names + NamesOf(steps) != [] && Masks(r, names + NamesOf(steps))
  }

  // ---------------------------------------------------------------------------------------
  // Completeness
  // ---------------------------------------------------------------------------------------

  /** What a place of the redacted tree says. */
  ghost predicate Complete(r: Rules, v: Value, w: Value, names: seq<string>, steps: seq<Step>, room: int) {
    Place(w, steps).Some? ==>
      && Place(v, steps).Some? && |steps| <= room
      && SameShape(Place(v, steps).value, Place(w, steps).value)
      && (EntryMasked(r, names, steps) ==> Place(w, steps).value == MaskValue(r, Place(v, steps).value))
  }

  /** A container in the output is the container of the input, with the same keys or length. */
  predicate SameShape(v: Value, w: Value) {
    && (w.Obj? ==> v.Obj? && w.fields.Keys == v.fields.Keys)
    && (w.Arr? ==> v.Arr? && |w.items| == |v.items|)
  }

  lemma StepNames(names: seq<string>, steps: seq<Step>)
    requires steps != []
    ensures names + NamesOf(steps) == Onto(names, steps[0]) + NamesOf(steps[1..])
  {
    hide NamesOf;
    var rest := NamesOf(steps[1..]);
    NamesStep(steps);
    if steps[0].Field? {
      assert names + ([steps[0].key] + rest) == (names + [steps[0].key]) + rest;
    } else {
      assert [] + rest == rest;
    }
  }

  lemma NamesStep(steps: seq<Step>)
    requires steps != []
    ensures NamesOf(steps) == (if steps[0].Field? then [steps[0].key] else []) + NamesOf(steps[1..])
  {
  }

  function Onto(names: seq<string>, step: Step): seq<string> {
    if step.Field? then names + [step.key] else names
  }

  /** What holds below a child holds below its container, when the child was walked. */
  lemma CompleteAbove(r: Rules, v: Value, w: Value, names: seq<string>, steps: seq<Step>, room: int)
    requires steps != [] && Child(v, steps[0]).Some? && Child(w, steps[0]).Some? && room >= 1
    requires var x, y := Child(v, steps[0]).value, Child(w, steps[0]).value;
      if |steps| == 1 then SameShape(x, y) && (EntryMasked(r, names, steps) ==> y == MaskValue(r, x))
      else Complete(r, x, y, Onto(names, steps[0]), steps[1..], room - 1)
    ensures Complete(r, v, w, names, steps, room)
  {
    hide NamesOf, Masks, MaskValue, SameShape;
    StepNames(names, steps);
    var x, y := Child(v, steps[0]).value, Child(w, steps[0]).value;
    assert Place(w, steps) == Place(y, steps[1..]) && Place(v, steps) == Place(x, steps[1..]);
    if |steps| > 1 {
      assert steps[1..][|steps| - 2] == steps[|steps| - 1];
    } else {
      assert steps[1..] == [];
      assert Place(y, []) == Some(y) && Place(x, []) == Some(x);
    }
  }

  lemma ItemBelow(r: Rules, v: Value, names: seq<string>, depth: nat, i: nat)
    requires v.Arr? && i < |v.items|
    ensures Child(ApplyItems(r, v, names, depth), Item(i)) == Some(ApplyValue(r, v.items[i], names, depth))
    ensures Onto(names, Item(i)) == names
  {
  }

  lemma {:induction false} ValueComplete(r: Rules, v: Value, names: seq<string>, depth: nat, steps: seq<Step>)
    ensures SameShape(v, ApplyValue(r, v, names, depth))
    ensures steps != [] ==> Complete(r, v, ApplyValue(r, v, names, depth), names, steps, r.maxDepth - depth)
    decreases |steps|, 1
  {
    hide Masks, NamesOf, MaskValue;
    if v.Obj? && depth + 1 <= r.maxDepth {
      MapComplete(r, v, names, depth + 1, steps);
    } else if v.Arr? && depth + 1 <= r.maxDepth && steps != [] && steps[0].Item? && steps[0].i < |v.items| {
      ValueComplete(r, v.items[steps[0].i], names, depth + 1, steps[1..]);
      ItemBelow(r, v, names, depth + 1, steps[0].i);
      CompleteAbove(r, v, ApplyValue(r, v, names, depth), names, steps, r.maxDepth - depth);
    }
  }

  lemma {:induction false} MapComplete(r: Rules, v: Value, names: seq<string>, depth: nat, steps: seq<Step>)
    requires v.Obj? && depth <= r.maxDepth
    ensures steps != [] ==> Complete(r, v, ApplyMap(r, v, names, depth), names, steps, r.maxDepth - depth + 1)
    decreases |steps|, 0
  {
    hide Masks, NamesOf, MaskValue;
    if steps != [] && steps[0].Field? && steps[0].key in v.fields {
      var key := steps[0].key;
      var x := v.fields[key];
      if Masks(r, names + [key]) {
        MaskIsScalar(r, x);
      } else {
        ValueComplete(r, x, names + [key], depth, steps[1..]);
      }
      OneName(names, steps);
      CompleteAbove(r, v, ApplyMap(r, v, names, depth), names, steps, r.maxDepth - depth + 1);
    }
  }

  lemma OneName(names: seq<string>, steps: seq<Step>)
    requires |steps| == 1 ==> steps[0].Field?
    ensures |steps| == 1 ==> NamesOf(steps) == [steps[0].key]
  {
    if |steps| == 1 {
      assert NamesOf(steps[1..]) == [];
    }
  }

  lemma MaskIsScalar(r: Rules, v: Value)
    ensures MaskValue(r, v).Str?
  {
  }

  /** Some entry on the way to the place, or the place itself, is masked. */
  ghost predicate Hidden(r: Rules, names: seq<string>, steps: seq<Step>)
    decreases |steps|
  {
    steps != [] && (
      (steps[0].Field? && Masks(r, Onto(names, steps[0]))) || Hidden(r, Onto(names, steps[0]), steps[1..]))
  }

  /** What an unmasked value becomes: a scalar is scanned, a container is walked while it is
      within the depth and replaced as a whole beyond it. */
  predicate Shows(r: Rules, x: Value, y: Value, names: seq<string>, room: int) {
    if x.Obj? || x.Arr? then if room >= 1 then SameShape(x, y) && (x.Obj? <==> y.Obj?) && (x.Arr? <==> y.Arr?) else y == TooDeep()
    else y == Scanned(r, x, names)
  }

  ghost predicate Visible(r: Rules, v: Value, w: Value, names: seq<string>, steps: seq<Step>, room: int) {
    Place(v, steps).Some? && !Hidden(r, names, steps) && |steps| <= room ==>
      Place(w, steps).Some?
      && Shows(r, Place(v, steps).value, Place(w, steps).value, names + NamesOf(steps), room - |steps|)
  }

  lemma VisibleAbove(r: Rules, v: Value, w: Value, names: seq<string>, steps: seq<Step>, room: int)
    requires steps != []
    requires Child(v, steps[0]).Some? && Child(w, steps[0]).Some? && !(steps[0].Field? && Masks(r, Onto(names, steps[0])))
    requires Visible(r, Child(v, steps[0]).value, Child(w, steps[0]).value, Onto(names, steps[0]), steps[1..], room - 1)
    ensures Visible(r, v, w, names, steps, room)
  {
    hide NamesOf, Masks, Shows;
    StepNames(names, steps);
  }

  lemma {:induction false} ValueVisible(r: Rules, v: Value, names: seq<string>, depth: nat, steps: seq<Step>)
    ensures Visible(r, v, ApplyValue(r, v, names, depth), names, steps, r.maxDepth - depth)
    decreases |steps|, 1
  {
    hide Masks, Scanned;
    assert names + [] == names;
    if steps != [] && v.Obj? && depth + 1 <= r.maxDepth {
      hide NamesOf, Shows;
      MapVisible(r, v, names, depth + 1, steps);
    } else if v.Arr? && depth + 1 <= r.maxDepth && steps != [] && steps[0].Item? && steps[0].i < |v.items| {
      hide NamesOf, Shows;
      ValueVisible(r, v.items[steps[0].i], names, depth + 1, steps[1..]);
      ItemBelow(r, v, names, depth + 1, steps[0].i);
      VisibleAbove(r, v, ApplyValue(r, v, names, depth), names, steps, r.maxDepth - depth);
    }
  }

  lemma {:induction false} MapVisible(r: Rules, v: Value, names: seq<string>, depth: nat, steps: seq<Step>)
    requires v.Obj? && steps != [] && depth <= r.maxDepth
    ensures Visible(r, v, ApplyMap(r, v, names, depth), names, steps, r.maxDepth - depth + 1)
    decreases |steps|, 0
  {
    hide Masks, NamesOf, MaskValue, Shows, Scanned;
    if steps[0].Field? && steps[0].key in v.fields && !Masks(r, names + [steps[0].key]) {
      var key := steps[0].key;
      ValueVisible(r, v.fields[key], names + [key], depth, steps[1..]);
      VisibleAbove(r, v, ApplyMap(r, v, names, depth), names, steps, r.maxDepth - depth + 1);
    }
  }

  /** After Apply, at every depth and inside arrays: no entry was added, every entry the
      denylist masks holds its mask, a container keeps its keys or its length, and nothing
      stands deeper than the limit. */
  lemma RedactionComplete(r: Rules, event: Value, steps: seq<Step>)
    requires event.Obj? && r.maxDepth >= 1 && steps != [] && Place(ApplyMap(r, event, [], 0), steps).Some?
    ensures Place(event, steps).Some? && |steps| <= r.maxDepth + 1
    ensures var x, y := Place(event, steps).value, Place(ApplyMap(r, event, [], 0), steps).value;
      && (y.Obj? ==> x.Obj? && y.fields.Keys == x.fields.Keys)
      && (y.Arr? ==> x.Arr? && |y.items| == |x.items|)
    ensures steps[|steps| - 1].Field? && NamesOf(steps) != [] && Masks(r, NamesOf(steps)) ==>
      Place(ApplyMap(r, event, [], 0), steps).value == MaskValue(r, Place(event, steps).value)
  {
    hide Masks, MaskValue, NamesOf, ApplyMap, Place;
    MapComplete(r, event, [], 0, steps);
    assert [] + NamesOf(steps) == NamesOf(steps);
  }

  /** And nothing else: a value with no masked entry on its way, within the depth, is still
      there, scanned if it is a scalar. */
  lemma OnlyMasked(r: Rules, event: Value, steps: seq<Step>)
    requires event.Obj? && r.maxDepth >= 1 && steps != [] && Place(event, steps).Some?
    requires !Hidden(r, [], steps) && |steps| <= r.maxDepth + 1
    ensures Place(ApplyMap(r, event, [], 0), steps).Some?
    ensures Shows(r, Place(event, steps).value, Place(ApplyMap(r, event, [], 0), steps).value, NamesOf(steps),
                  r.maxDepth + 1 - |steps|)
  {
    hide Masks, NamesOf, ApplyMap, Place, Shows, Hidden;
    MapVisible(r, event, [], 0, steps);
    assert [] + NamesOf(steps) == NamesOf(steps);
  }

  /** What the output holds there: a container with its keys or its length, or the depth notice in
      its place; a string scanned by the patterns, or the size notice; a number, or the text a
      pattern makes of it; anything else as it was. */
  lemma ShownPlaces(r: Rules, event: Value, steps: seq<Step>)
    requires event.Obj? && r.maxDepth >= 1 && steps != [] && Place(event, steps).Some?
    requires !Hidden(r, [], steps) && |steps| <= r.maxDepth + 1
    ensures Place(ApplyMap(r, event, [], 0), steps).Some?
    ensures var x, y := Place(event, steps).value, Place(ApplyMap(r, event, [], 0), steps).value;
      && (|steps| == r.maxDepth + 1 && (x.Obj? || x.Arr?) ==> y == Str("[REDACTED:DEPTH]"))
      && (|steps| <= r.maxDepth && x.Obj? ==> y.Obj? && y.fields.Keys == x.fields.Keys)
      && (|steps| <= r.maxDepth && x.Arr? ==> y.Arr? && |y.items| == |x.items|)
      && (x.Str? && |x.s| > r.maxScan ==> y == Str("[REDACTED:TOO_LARGE]"))
      && (x.Str? && |x.s| <= r.maxScan ==> y == Str(r.scan(x.s, NamesOf(steps))))
      && (x.Num? ==> y == if r.number(x.n).Some? then Str(r.number(x.n).value) else x)
      && (x.Int? ==> y == if r.number(x.i).Some? then Str(r.number(x.i).value) else Num(x.i))
      && (x.Null? || x.Bool? ==> y == x)
  {
    hide Masks, NamesOf, ApplyMap, Place, Hidden;
    OnlyMasked(r, event, steps);
  }

  /** A kept path is never masked, and any other exactly when its last name is an entry's or a
      glob's, or the names are a dotted entry's. */
  lemma KeptIsNotMasked(r: Rules, names: seq<string>)
    requires names != []
    ensures Join('.', names) in r.kept ==> !Masks(r, names)
    ensures Join('.', names) !in r.kept ==>
      (Masks(r, names) <==>
       KeyDenied(r, names[|names| - 1]) || GlobDenied(r, names[|names| - 1]) || PathDenied(r, names))
  {
    hide KeyDenied, GlobDenied, PathDenied;
  }

  /** What the output holds at a masked entry: the fixed text, unless a replacement function is
      given and the value was a string, which then goes through it. */
  lemma MaskedPlaces(r: Rules, event: Value, steps: seq<Step>)
    requires event.Obj? && r.maxDepth >= 1 && steps != [] && Place(ApplyMap(r, event, [], 0), steps).Some?
    requires steps[|steps| - 1].Field? && NamesOf(steps) != [] && Masks(r, NamesOf(steps))
    ensures Place(event, steps).Some?
    ensures var x, y := Place(event, steps).value, Place(ApplyMap(r, event, [], 0), steps).value;
      && (r.replace.None? || !x.Str? ==> y == Str(r.replacement))
      && (r.replace.Some? && x.Str? ==> y == Str(r.replace.value(x.s)))
  {
    hide Masks, NamesOf, ApplyMap, Place;
    RedactionComplete(r, event, steps);
  }

  /** The two values differ only inside masked entries. */
  ghost predicate SameButMasked(r: Rules, v: Value, w: Value, names: seq<string>)
    decreases v
  {
    if v.Obj? && w.Obj? then
      && v.fields.Keys == w.fields.Keys
      && forall k :: k in v.fields ==> Masks(r, names + [k]) || SameButMasked(r, v.fields[k], w.fields[k], names + [k])
    else if v.Arr? && w.Arr? then
      |v.items| == |w.items| && forall i :: 0 <= i < |v.items| ==> SameButMasked(r, v.items[i], w.items[i], names)
    else v == w
  }

  /** Without a replacement function the output says nothing of what was masked. */
  lemma SecretsDoNotShow(r: Rules, event: Value, other: Value)
    requires r.replace.None? && event.Obj? && other.Obj? && SameButMasked(r, event, other, [])
    ensures ApplyMap(r, event, [], 0) == ApplyMap(r, other, [], 0)
  {
    SameMaps(r, event, other, [], 0);
  }

  lemma {:induction false} SameMaps(r: Rules, v: Value, w: Value, names: seq<string>, depth: nat)
    requires r.replace.None? && v.Obj? && w.Obj? && SameButMasked(r, v, w, names)
    ensures ApplyMap(r, v, names, depth) == ApplyMap(r, w, names, depth)
    decreases v, 0
  {
    hide Masks;
    var x, y := ApplyMap(r, v, names, depth), ApplyMap(r, w, names, depth);
    forall k | k in v.fields
      ensures x.fields[k] == y.fields[k]
    {
      if !Masks(r, names + [k]) {
        SameValues(r, v.fields[k], w.fields[k], names + [k], depth);
      }
    }
    assert x.fields == y.fields;
  }

  lemma {:induction false} SameValues(r: Rules, v: Value, w: Value, names: seq<string>, depth: nat)
    requires r.replace.None? && SameButMasked(r, v, w, names)
    ensures ApplyValue(r, v, names, depth) == ApplyValue(r, w, names, depth)
    decreases v, 1
  {
    hide Masks, Scanned;
    if v.Obj? && w.Obj? {
      if depth + 1 <= r.maxDepth {
        SameMaps(r, v, w, names, depth + 1);
      }
    } else if v.Arr? && w.Arr? {
      if depth + 1 <= r.maxDepth {
        forall i | 0 <= i < |v.items|
          ensures ApplyValue(r, v.items[i], names, depth + 1) == ApplyValue(r, w.items[i], names, depth + 1)
        {
          SameValues(r, v.items[i], w.items[i], names, depth + 1);
        }
        assert ApplyItems(r, v, names, depth + 1).items == ApplyItems(r, w, names, depth + 1).items;
      }
    }
  }
}
