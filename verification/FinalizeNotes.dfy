/**
 stages.go, finalizeSize: the size of the event that is sent, and the count of drops it states.
 The cap is measured before the two notes are written, and after the redactor has run.
 */
module FinalizeNotes {
  import opened GoBytes
  import opened Tree
  import opened Keys
  import opened Sizes
  import opened SizeTrim
  import Redaction

  /** What the two notes add to the wlog group, over what they replace. */
  ghost function NotesSize(group: Object, names: seq<string>): int {
    17 + ValueSize(Arr(Strings(names)))
    - (if "truncated" in group then EntrySize(Obj(group), "truncated") else 0)
    + (if "dropped_fields" in group then 16 - ValueSize(group["dropped_fields"]) else 38)
  }

  lemma GroupGrows(group: Object, names: seq<string>)
    ensures ValueSize(Obj(Notes(group, names))) == ValueSize(Obj(group)) + NotesSize(group, names)
  {
    hide FieldsSize, ItemsSize, Strings;
    var list := Arr(Strings(names));
    SizeOfUpdate(Obj(group), "truncated", list);
    var once := group["truncated" := list];
    SizeOfUpdate(Obj(once), "dropped_fields", Int(EarlierDrops(group) + |names|));
    assert |"truncated"| == 9 && |"dropped_fields"| == 14;
    assert "dropped_fields" in group ==> once["dropped_fields"] == group["dropped_fields"];
  }

  lemma NotesGrow(event: Object, names: seq<string>)
    requires HasGroup(event)
    ensures ValueSize(Obj(WithNotes(event, names))) == ValueSize(Obj(event)) + NotesSize(event["wlog"].fields, names)
  {
    hide ValueSize, NotesSize, Notes;
    GroupGrows(event["wlog"].fields, names);
    SizeOfUpdate(Obj(event), "wlog", Obj(Notes(event["wlog"].fields, names)));
  }

  /** An event that passes finalize after a trim is sent within the cap if and only if the room
      the trim left is at least what the two notes add. */
  lemma SentWithinCap(v: Value, removed: seq<string>, reserved: set<string>, max: int)
    requires Trims(v, removed, reserved, max) && HasGroup(v.fields) && "wlog" in reserved && removed != []
    requires Left(v, Elems(removed)) <= max
    ensures HasGroup(v.fields - Elems(removed))
    ensures ValueSize(Obj(WithNotes(v.fields - Elems(removed), removed))) <= max
      <==> max - Left(v, Elems(removed)) >= NotesSize(v.fields["wlog"].fields, removed)
  {
    GroupStays(v, removed, reserved, max);
    hide ValueSize, NotesSize, Trims, WithNotes, FieldsSize;
    NotesGrow(v.fields - Elems(removed), removed);
    SizeAfter(v, Elems(removed));
  }

  // ---------------------------------------------------------------------------------------
  // One event that passes and is over the cap when it is sent
  // ---------------------------------------------------------------------------------------

  const MAX_EVENT := 262144

  /** The longest string that the default redactor lets through. */
  const MAX_TEXT := 65536

  const RESERVED: set<string> := {
    "timestamp", "level", "summary", "operation", "kind", "outcome", "duration_ms", "message",
    "error", "event_id", "service", "trace", "http", "rpc", "messaging", "job", "cli", "faas",
    "user", "geo", "client", "host", "deploy", "llm", "audit", "errors", "logs", "calls",
    "call_stats", "feature_flags", "wlog"}

  function Text(n: nat): (s: string)
    ensures |s| == n
  {
    seq(n, _ => 'x')
  }

  /** What emit writes of every unit of work. */
  function Emitted(): Object {
    map["timestamp" := Str(Text(30)), "level" := Str("info"), "kind" := Str("work"), "operation" := Str("job")]
    ["outcome" := Str("success")]["event_id" := Str(Text(36))]["duration_ms" := Num(1)]["summary" := Str(Text(10))]
    ["trace" := Obj(map["trace_id" := Str(Text(32)), "span_id" := Str(Text(16))])]
    ["wlog" := Obj(map["schema_version" := Num(2)])]
  }

  /** Four texts that the redactor lets through, and that fill the cap to the byte. */
  function Http(): Object {
    map["route" := Str(Text(MAX_TEXT)), "path" := Str(Text(MAX_TEXT)), "host" := Str(Text(MAX_TEXT)), "user_agent" := Str(Text(65109))]
  }

  function WithHttp(): Object {
    Emitted()["http" := Obj(Http())]
  }

  /** And one user field. */
  function Full(): Value {
    Obj(WithHttp()["a" := Null])
  }

  /** No string is longer than the redactor lets through. */
  predicate Short(v: Value) {
    match v
    case Str(s) => |s| <= MAX_TEXT
    case Obj(fields) => forall k :: k in fields ==> Short(fields[k])
    case Arr(items) => forall i :: 0 <= i < |items| ==> Short(items[i])
    case _ => true
  }

  lemma Grown(m: Object, k: string, x: Value)
    requires k !in m
    ensures ValueSize(Obj(m[k := x])) == ValueSize(Obj(m)) + |k| + 8 + ValueSize(x)
  {
    SizeOfUpdate(Obj(m), k, x);
  }

  lemma Empty()
    ensures ValueSize(Obj(map[])) == 0
  {
    var none: Object := map[];
    assert none.Keys == {};
    NoFields(Obj(map[]));
  }

  lemma TwoSize(k: string, x: Value, l: string, y: Value)
    requires k != l
    ensures ValueSize(Obj(map[k := x, l := y])) == |k| + |l| + 16 + ValueSize(x) + ValueSize(y)
  {
    hide ValueSize;
    Empty();
    Grown(map[], k, x);
    Grown(map[k := x], l, y);
    assert map[][k := x] == map[k := x] && map[k := x][l := y] == map[k := x, l := y];
  }

  lemma FourSize(k: string, x: Value, l: string, y: Value, m: string, z: Value, n: string, w: Value)
    requires k != l && k != m && k != n && l != m && l != n && m != n
    ensures ValueSize(Obj(map[k := x, l := y, m := z, n := w])) ==
      |k| + |l| + |m| + |n| + 32 + ValueSize(x) + ValueSize(y) + ValueSize(z) + ValueSize(w)
  {
    hide ValueSize;
    TwoSize(k, x, l, y);
    Grown(map[k := x, l := y], m, z);
    Grown(map[k := x, l := y, m := z], n, w);
    assert map[k := x, l := y][m := z] == map[k := x, l := y, m := z];
    assert map[k := x, l := y, m := z][n := w] == map[k := x, l := y, m := z, n := w];
  }

  lemma OneSize(k: string, x: Value)
    ensures ValueSize(Obj(map[k := x])) == |k| + 8 + ValueSize(x)
  {
    hide ValueSize;
    Empty();
    Grown(map[], k, x);
    assert map[][k := x] == map[k := x];
  }

  lemma TextSizes(n: nat)
    ensures ValueSize(Str(Text(n))) == n && ValueSize(Num(n)) == 8
  {
  }

  lemma EmittedSize()
    ensures ValueSize(Obj(Emitted())) == 360
  {
    hide ValueSize, Text;
    var head := map["timestamp" := Str(Text(30)), "level" := Str("info"), "kind" := Str("work"), "operation" := Str("job")];
    HeadSize();
    var ids := head["outcome" := Str("success")]["event_id" := Str(Text(36))];
    assert "outcome" !in head && "event_id" !in head["outcome" := Str("success")];
    Grown(head, "outcome", Str("success"));
    Grown(head["outcome" := Str("success")], "event_id", Str(Text(36)));
    var times := ids["duration_ms" := Num(1)]["summary" := Str(Text(10))];
    Grown(ids, "duration_ms", Num(1));
    Grown(ids["duration_ms" := Num(1)], "summary", Str(Text(10)));
    var trace, wlog := Obj(map["trace_id" := Str(Text(32)), "span_id" := Str(Text(16))]), Obj(map["schema_version" := Num(2)]);
    Grown(times, "trace", trace);
    Grown(times["trace" := trace], "wlog", wlog);
    TailSizes();
  }

  lemma HeadSize()
    ensures ValueSize(Obj(map["timestamp" := Str(Text(30)), "level" := Str("info"), "kind" := Str("work"), "operation" := Str("job")])) == 100
  {
    FourSize("timestamp", Str(Text(30)), "level", Str("info"), "kind", Str("work"), "operation", Str("job"));
    TextSizes(30);
    assert ValueSize(Str("info")) == 4 && ValueSize(Str("work")) == 4 && ValueSize(Str("job")) == 3;
    assert |"timestamp"| == 9 && |"level"| == 5 && |"kind"| == 4 && |"operation"| == 9;
  }

  lemma TailSizes()
    ensures ValueSize(Str("success")) == 7 && ValueSize(Str(Text(36))) == 36 && ValueSize(Str(Text(10))) == 10 && ValueSize(Num(1)) == 8
    ensures ValueSize(Obj(map["trace_id" := Str(Text(32)), "span_id" := Str(Text(16))])) == 79
    ensures ValueSize(Obj(map["schema_version" := Num(2)])) == 30
    ensures |"outcome"| == 7 && |"event_id"| == 8 && |"duration_ms"| == 11 && |"summary"| == 7 && |"trace"| == 5 && |"wlog"| == 4
  {
    TextSizes(36);
    TextSizes(10);
    TextSizes(32);
    TextSizes(16);
    TextSizes(1);
    TextSizes(2);
    assert ValueSize(Str("success")) == 7;
    assert |"trace_id"| == 8 && |"span_id"| == 7 && |"schema_version"| == 14;
    TwoSize("trace_id", Str(Text(32)), "span_id", Str(Text(16)));
    OneSize("schema_version", Num(2));
  }

  lemma HttpSize()
    ensures ValueSize(Obj(Http())) == 261772
  {
    hide Text;
    FourSize("route", Str(Text(MAX_TEXT)), "path", Str(Text(MAX_TEXT)), "host", Str(Text(MAX_TEXT)), "user_agent", Str(Text(65109)));
    TextSizes(MAX_TEXT);
    TextSizes(65109);
    assert |"route"| == 5 && |"path"| == 4 && |"host"| == 4 && |"user_agent"| == 10;
  }

  lemma FullSizes()
    ensures ValueSize(Obj(WithHttp())) == MAX_EVENT && ValueSize(Full()) == MAX_EVENT + 9
    ensures Full().fields - {"a"} == WithHttp() && "a" !in WithHttp()
  {
    EmittedSize();
    HttpSize();
    hide ValueSize, Http, Text;
    assert "http" !in Emitted() && "a" !in WithHttp();
    Grown(Emitted(), "http", Obj(Http()));
    assert |"http"| == 4 && |"a"| == 1 && ValueSize(Null) == 0 by {
      NullSize();
    }
    Grown(WithHttp(), "a", Null);
  }

  lemma NullSize()
    ensures ValueSize(Null) == 0
  {
  }

  lemma OnlyUserField()
    ensures UserKeys(Full(), RESERVED) == {"a"} && "wlog" in RESERVED
    ensures HasGroup(WithHttp()) && WithHttp()["wlog"] == Obj(map["schema_version" := Num(2)])
    ensures Emitted().Keys <= Full().fields.Keys
  {
    hide Http, Text;
    assert WithHttp().Keys <= RESERVED;
    assert forall k :: k in RESERVED ==> |k| > 1;
  }

  lemma ShortStep(m: Object, k: string, x: Value)
    requires Short(x) && Short(Obj(m))
    ensures Short(Obj(m[k := x])) && Short(Obj(map[]))
  {
  }

  lemma ShortFour(k: string, x: Value, l: string, y: Value, m: string, z: Value, n: string, w: Value)
    requires Short(x) && Short(y) && Short(z) && Short(w)
    ensures Short(Obj(map[k := x, l := y, m := z, n := w])) && Short(Obj(map[k := x, l := y])) && Short(Obj(map[k := x]))
  {
  }

  lemma ShortText(s: string, n: int)
    requires |s| <= MAX_TEXT
    ensures Short(Str(s)) && Short(Num(n)) && Short(Null)
  {
  }

  lemma EmittedIsShort()
    ensures Short(Full())
  {
    hide Text, Short;
    ShortText("info", 1);
    ShortText("work", 2);
    ShortText("job", 1);
    ShortText("success", 1);
    ShortText(Text(30), 1);
    ShortText(Text(36), 1);
    ShortText(Text(10), 1);
    ShortText(Text(32), 1);
    ShortText(Text(16), 1);
    ShortText(Text(MAX_TEXT), 1);
    ShortText(Text(65109), 1);
    ShortFour("timestamp", Str(Text(30)), "level", Str("info"), "kind", Str("work"), "operation", Str("job"));
    ShortFour("route", Str(Text(MAX_TEXT)), "path", Str(Text(MAX_TEXT)), "host", Str(Text(MAX_TEXT)), "user_agent", Str(Text(65109)));
    ShortFour("trace_id", Str(Text(32)), "span_id", Str(Text(16)), "", Null, "", Null);
    ShortFour("schema_version", Num(2), "", Null, "", Null, "", Null);
    var head := map["timestamp" := Str(Text(30)), "level" := Str("info"), "kind" := Str("work"), "operation" := Str("job")];
    var ids := head["outcome" := Str("success")]["event_id" := Str(Text(36))];
    var times := ids["duration_ms" := Num(1)]["summary" := Str(Text(10))];
    var trace, wlog := Obj(map["trace_id" := Str(Text(32)), "span_id" := Str(Text(16))]), Obj(map["schema_version" := Num(2)]);
    ShortStep(head, "outcome", Str("success"));
    ShortStep(head["outcome" := Str("success")], "event_id", Str(Text(36)));
    ShortStep(ids, "duration_ms", Num(1));
    ShortStep(ids["duration_ms" := Num(1)], "summary", Str(Text(10)));
    ShortStep(times, "trace", trace);
    ShortStep(times["trace" := trace], "wlog", wlog);
    ShortStep(Emitted(), "http", Obj(Http()));
    ShortStep(WithHttp(), "a", Null);
  }

  /** finalizeSize drops the one user field, answers true, and the event it leaves is 64 bytes
      over the cap. */
  lemma SentOverCap()
    ensures Short(Full()) && Emitted().Keys <= Full().fields.Keys && "schema_version" in WithHttp()["wlog"].fields
    ensures Trims(Full(), ["a"], RESERVED, MAX_EVENT) && Left(Full(), Elems(["a"])) <= MAX_EVENT
    ensures HasGroup(Full().fields - Elems(["a"]))
    ensures ValueSize(Obj(WithNotes(Full().fields - Elems(["a"]), ["a"]))) == MAX_EVENT + 64
  {
    hide FieldsSize, ValueSize, EntrySize, Emitted, Http, Short, RESERVED;
    var v := Full();
    FullSizes();
    OnlyUserField();
    EmittedIsShort();
    hide WithHttp;
    assert Elems(["a"]) == {"a"} && Elems([]) == {};
    assert ["a"][..0] == [];
    SizeAfter(v, {"a"});
    SizeAfter(v, {});
    assert v.fields - {} == v.fields;
    NotesGrow(WithHttp(), ["a"]);
    OneName();
  }

  lemma OneName()
    ensures NotesSize(map["schema_version" := Num(2)], ["a"]) == 64
  {
    var list := Arr(Strings(["a"]));
    assert list.items == [Str("a")];
    assert ItemsSize(list, 0) == 0 && ItemsSize(list, 1) == 9;
    assert "schema_version" != "truncated" && "schema_version" != "dropped_fields";
  }

  // ---------------------------------------------------------------------------------------
  // The count of drops
  // ---------------------------------------------------------------------------------------

  /** What the walk makes of the wlog group. */
  lemma GroupWalked(r: Redaction.Rules, event: Value)
    requires event.Obj? && HasGroup(event.fields) && r.maxDepth >= 1 && !Redaction.Masks(r, ["wlog"])
    ensures HasGroup(Redaction.ApplyMap(r, event, [], 0).fields)
    ensures Redaction.ApplyMap(r, event, [], 0).fields["wlog"] == Redaction.ApplyMap(r, event.fields["wlog"], ["wlog"], 1)
  {
    hide Redaction.Masks;
    assert [] + ["wlog"] == ["wlog"];
    var group := event.fields["wlog"];
    assert Redaction.ApplyValue(r, group, ["wlog"], 0) == Redaction.ApplyMap(r, group, ["wlog"], 1);
  }

  /** And of a count in it that is a Go int. */
  lemma CountWalked(r: Redaction.Rules, group: Value)
    requires group.Obj? && "dropped_fields" in group.fields && group.fields["dropped_fields"].Int?
    ensures var v, path := group.fields["dropped_fields"], ["wlog", "dropped_fields"];
      Redaction.ApplyMap(r, group, ["wlog"], 1).fields["dropped_fields"] ==
        if Redaction.Masks(r, path) then Redaction.MaskValue(r, v) else Redaction.Scanned(r, v, path)
  {
    hide Redaction.Masks, Redaction.Scanned, Redaction.MaskValue;
    assert ["wlog"] + ["dropped_fields"] == ["wlog", "dropped_fields"];
  }

  /** The redactor, which runs before, leaves no Go int, unless it is disabled: the drops of the
      trim join those counted before exactly when it is, or when there were none. */
  lemma DropsJoin(r: Redaction.Rules, event: Value, earlier: int, names: seq<string>)
    requires event.Obj? && HasGroup(event.fields) && (r.disabled || (r.maxDepth >= 1 && !Redaction.Masks(r, ["wlog"])))
    requires "dropped_fields" in event.fields["wlog"].fields && event.fields["wlog"].fields["dropped_fields"] == Int(earlier)
    ensures HasGroup(Redaction.Applied(r, event).fields)
    ensures Notes(Redaction.Applied(r, event).fields["wlog"].fields, names)["dropped_fields"] == Int(earlier + |names|)
      <==> r.disabled || earlier == 0
  {
    hide Redaction.Masks, Redaction.ApplyMap;
    if !r.disabled {
      GroupWalked(r, event);
      CountWalked(r, event.fields["wlog"]);
    }
  }

  /** Where no mask and no pattern touches the count, it is an int64 of the same number, and the
      new count starts from zero. */
  lemma RedactedDropsAreLost(r: Redaction.Rules, event: Value, earlier: int, names: seq<string>)
    requires event.Obj? && HasGroup(event.fields) && r.maxDepth >= 1
    requires "dropped_fields" in event.fields["wlog"].fields
    requires event.fields["wlog"].fields["dropped_fields"] == Int(earlier) && r.number(earlier).None?
    requires !Redaction.Masks(r, ["wlog"]) && !Redaction.Masks(r, ["wlog", "dropped_fields"])
    ensures HasGroup(Redaction.ApplyMap(r, event, [], 0).fields)
    ensures var group := Redaction.ApplyMap(r, event, [], 0).fields["wlog"].fields;
      && "dropped_fields" in group && group["dropped_fields"] == Num(earlier)
      && Notes(group, names)["dropped_fields"] == Int(|names|)
  {
    hide Redaction.Masks, Redaction.ApplyMap;
    GroupWalked(r, event);
    CountWalked(r, event.fields["wlog"]);
  }
}
