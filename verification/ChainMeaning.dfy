/**
 audit/verify.go, checkLine and checkMarker: which files Verify accepts, said of each line and the
 lines before it without a walk, and what seal puts into the line it writes.
 */
module ChainMeaning {
  import opened GoBytes
  import opened Tree
  import opened ChainField
  import opened Chain
  import opened HeadUnique

  // ---------------------------------------------------------------------------------------
  // One field
  // ---------------------------------------------------------------------------------------

  /** The name, quoted and with a colon and a quote behind it, stands in the line once, and 64 hex
      digits v and a quote follow it. */
  ghost predicate Reads(line: bytes, field: string, off: int, v: bytes) {
    var m := "\"" + field + "\":\"";
    && |m| <= off && off + 64 < |line| && m <= line[off - |m|..]
    && (forall p :: 0 <= p <= |line| && m <= line[p..] ==> p == off - |m|)
    && v == line[off..off + 64] && (forall c :: c in v ==> c in "0123456789abcdefABCDEF")
    && line[off + 64] == '"'
  }

  lemma OccursAt(line: bytes, m: bytes, p: int)
    ensures Occurs(line, m, p) <==> 0 <= p <= |line| && m <= line[p..]
  {
    if 0 <= p <= |line| - |m| {
      var rest := line[p..];
      assert forall j :: 0 <= j < |m| ==> rest[j] == line[p + j];
    }
  }

  lemma HexDigits(c: char)
    ensures IsHex(c) <==> c in "0123456789abcdefABCDEF"
  {
  }

  /** chainValue reads exactly the fields that stand there so. */
  lemma FieldExactly(line: bytes, field: string, off: nat, v: bytes)
    ensures ChainValue(line, field) == Found(v, off) <==> Reads(line, field, off, v)
  {
    hide ChainValue, Occurs, IsHex, FieldAt, Reads;
    ChainValueMeaning(line, field);
    if off + 64 < |line| {
      FieldIsRead(line, field, off);
    } else {
      TooShort(line, field, off, v);
    }
  }

  lemma TooShort(line: bytes, field: string, off: nat, v: bytes)
    requires off + 64 >= |line|
    ensures !Reads(line, field, off, v)
  {
  }

  lemma FieldIsRead(line: bytes, field: string, off: nat)
    requires off + 64 < |line|
    ensures forall v :: Reads(line, field, off, v) <==> FieldAt(line, field, off) && v == line[off..off + 64]
  {
    hide Occurs, IsHex;
    var m := Marker(field);
    assert m == "\"" + field + "\":\"";
    forall p
      ensures Occurs(line, m, p) <==> 0 <= p <= |line| && m <= line[p..]
    {
      OccursAt(line, m, p);
    }
    HexRun(line, off);
  }

  lemma HexRun(line: bytes, off: nat)
    requires off + 64 < |line|
    ensures HexAt(line, off) <==> forall c :: c in line[off..off + 64] ==> c in "0123456789abcdefABCDEF"
  {
    hide IsHex;
    var v := line[off..off + 64];
    forall i | 0 <= i < 64
      ensures v[i] == line[off + i] && (IsHex(v[i]) <==> v[i] in "0123456789abcdefABCDEF")
    {
      HexDigits(v[i]);
    }
    if forall c :: c in v ==> c in "0123456789abcdefABCDEF" {
      forall i | off <= i < off + 64
        ensures IsHex(line[i])
      {
        assert line[i] == v[i - off] && v[i - off] in v;
      }
    }
  }

  /** Two lower-case digits for each byte, the high one first. */
  lemma {:induction false} HexTextAt(d: seq<int>, i: nat)
    requires i < |d| && forall j :: 0 <= j < |d| ==> 0 <= d[j] < 256
    ensures HexEncode(d)[2 * i] == "0123456789abcdef"[d[i] / 16]
    ensures HexEncode(d)[2 * i + 1] == "0123456789abcdef"[d[i] % 16]
  {
    if i == 0 {
    } else {
      HexTextAt(d[1..], i - 1);
    }
  }

  // ---------------------------------------------------------------------------------------
  // One line and the lines before it
  // ---------------------------------------------------------------------------------------

  /** The object has this text under key; no text there reads as the empty one. */
  ghost predicate Says(o: Object, key: string, text: string) {
    if key in o && o[key].Str? then o[key].s == text else text == ""
  }

  /** A decoded line with an object under "audit.marker" is a marker. */
  predicate IsMarker(env: Env, line: bytes) {
    var o := env.unmarshal(line);
    o.Some? && "audit.marker" in o.value && o.value["audit.marker"].Obj?
  }

  /** How many of the lines are records. */
  function RecordsIn(env: Env, lines: seq<bytes>): nat {
    |set i | 0 <= i < |lines| && !IsMarker(env, lines[i])|
  }

  /** The hash the last line holds, or "" before the first. */
  function HeadOf(lines: seq<bytes>): bytes {
    if lines == [] then "" else
    match ChainValue(lines[|lines| - 1], "audit.hash")
    case Found(value, _) => value
    case NotFound(_) => ""
  }

  /** The line with '0' for each digit of its hash and, when one can be read, of its signature. */
  ghost predicate Zeroed(line: bytes, covered: bytes) {
    var h, s := ChainValue(line, "audit.hash"), ChainValue(line, "audit.signature");
    && |covered| == |line|
    && forall i :: 0 <= i < |line| ==>
      covered[i] ==
      if (h.Found? && h.off <= i < h.off + 64) || (s.Found? && s.off <= i < s.off + 64) then '0' else line[i]
  }

  /** What a marker says of the lines before it. */
  ghost predicate Marks(env: Env, key: Key, before: seq<bytes>, m: Object) {
    && "count" in m && m["count"] == Num(RecordsIn(env, before))
    && Says(m, "head", HeadOf(before))
    && (key.Some? ==> Says(m, "key_id", HexEncode(env.sha(key.value))[..16]))
  }

  /** The line holds the hash of its own covered bytes, that hash signed when there is a key, and
      names the line before it; a marker says what came before it. */
  ghost predicate Follows(env: Env, key: Key, before: seq<bytes>, line: bytes) {
    var h, s, o := ChainValue(line, "audit.hash"), ChainValue(line, "audit.signature"), env.unmarshal(line);
    && h.Found?
    && (exists covered :: Zeroed(line, covered) && h.value == HexEncode(env.sha(covered)))
    && (key.Some? ==> s.Found? && s.value == HexEncode(env.hmac(key.value, h.value)))
    && o.Some?
    && Says(o.value, "audit.prev_hash", HeadOf(before))
    && (IsMarker(env, line) ==> Marks(env, key, before, o.value["audit.marker"].fields))
  }

  lemma ZeroedIsCovered(line: bytes, covered: bytes)
    requires ChainValue(line, HASH).Found?
    ensures Zeroed(line, covered) <==> covered == CoveredLine(line)
  {
    hide ChainValue, CoveredLine;
    CoveredCases(line);
    ChainValueMeaning(line, SIGNATURE);
  }

  lemma SaysIsText(o: Object, key: string, text: string)
    ensures Says(o, key, text) <==> StringAt(o, key) == text
  {
  }

  lemma MarksIsChecked(env: Env, key: Key, before: seq<bytes>, m: Object)
    ensures Marks(env, key, before, m) <==>
      CheckMarker(env, key, BodyOf(m), Head(RecordsIn(env, before), HeadOf(before)))
  {
    hide HexEncode, RecordsIn, HeadOf;
    SaysIsText(m, "head", HeadOf(before));
    if key.Some? {
      SaysIsText(m, "key_id", KeyID(env, key.value));
    }
  }

  lemma FollowsIsChecked(env: Env, key: Key, before: seq<bytes>, line: bytes)
    ensures var c := Head(RecordsIn(env, before), HeadOf(before));
      && (Follows(env, key, before, line) <==> StepLine(env, key, c, line).Some?)
      && (Follows(env, key, before, line) ==>
            StepLine(env, key, c, line).value ==
            Head(if IsMarker(env, line) then c.records else c.records + 1, ChainValue(line, HASH).value))
  {
    hide ChainValue, CoveredLine, HexEncode, RecordsIn, HeadOf, CheckMarker, Marks, Says, Zeroed, BodyOf, StringAt;
    var h, o := ChainValue(line, HASH), env.unmarshal(line);
    if h.Found? {
      ZeroedIsCovered(line, CoveredLine(line));
      forall covered | Zeroed(line, covered)
        ensures covered == CoveredLine(line)
      {
        ZeroedIsCovered(line, covered);
      }
    }
    if o.Some? {
      SaysIsText(o.value, PREV_HASH, HeadOf(before));
      if IsMarker(env, line) {
        MarksIsChecked(env, key, before, o.value[MARKER].fields);
      }
    }
  }

  // ---------------------------------------------------------------------------------------
  // Whole files
  // ---------------------------------------------------------------------------------------

  lemma RecordsSnoc(env: Env, lines: seq<bytes>, line: bytes)
    ensures RecordsIn(env, lines + [line]) == RecordsIn(env, lines) + if IsMarker(env, line) then 0 else 1
  {
    hide IsMarker;
    var n := |lines|;
    var now := set i | 0 <= i < |lines + [line]| && !IsMarker(env, (lines + [line])[i]);
    var was := set i | 0 <= i < n && !IsMarker(env, lines[i]);
    assert now == was + if IsMarker(env, line) then {} else {n};
  }

  /** Verify accepts exactly the lines each of which follows the lines before it, and the chain it
      reads counts the records and ends in the last hash. */
  lemma {:induction false} AcceptsExactly(env: Env, key: Key, lines: seq<bytes>)
    ensures Fold(env, key, lines).Some? <==> forall i :: 0 <= i < |lines| ==> Follows(env, key, lines[..i], lines[i])
    ensures Fold(env, key, lines).Some? ==>
      Fold(env, key, lines).value == Head(RecordsIn(env, lines), HeadOf(lines))
  {
    hide Follows, StepLine, RecordsIn, IsMarker, ChainValue;
    if lines == [] {
      NoRecords(env);
    } else {
      var n := |lines| - 1;
      var front, line := lines[..n], lines[n];
      assert lines == front + [line];
      assert forall i :: 0 <= i < n ==> front[..i] == lines[..i] && front[i] == lines[i];
      AcceptsExactly(env, key, front);
      FoldSnoc(env, key, front, line);
      FollowsIsChecked(env, key, front, line);
      RecordsSnoc(env, front, line);
      if Follows(env, key, front, line) {
        FollowsHash(env, key, front, line);
      }
    }
  }

  lemma FollowsHash(env: Env, key: Key, before: seq<bytes>, line: bytes)
    requires Follows(env, key, before, line)
    ensures ChainValue(line, HASH).Found? && HeadOf(before + [line]) == ChainValue(line, HASH).value
  {
    hide ChainValue, HexEncode, RecordsIn, Zeroed, Marks, Says;
  }

  lemma NoRecords(env: Env)
    ensures RecordsIn(env, []) == 0
  {
    hide IsMarker;
    var none: seq<bytes> := [];
    assert (set i | 0 <= i < |none| && !IsMarker(env, none[i])) == {};
  }

  /** So a marker that states another count, head or key than the lines before it have makes Verify
      refuse the file, whatever stands behind it. */
  lemma FalseMarkerIsRefused(env: Env, key: Key, lines: seq<bytes>, i: nat)
    requires i < |lines| && IsMarker(env, lines[i])
    requires !Marks(env, key, lines[..i], env.unmarshal(lines[i]).value["audit.marker"].fields)
    ensures Fold(env, key, lines).None?
  {
    hide Marks, IsMarker, Zeroed, ChainValue, Says, Fold;
    AcceptsExactly(env, key, lines);
    assert !Follows(env, key, lines[..i], lines[i]);
  }

  // ---------------------------------------------------------------------------------------
  // seal
  // ---------------------------------------------------------------------------------------

  ghost predicate IsZeros(v: Value) {
    v.Str? && |v.s| == 64 && forall i :: 0 <= i < 64 ==> v.s[i] == '0'
  }

  /** The event with the previous hash, and zeros where the hash and the signature go. */
  ghost predicate Holds(key: Key, event: Object, prev: bytes, o: Object) {
    var added := {"audit.prev_hash", "audit.hash"} + if key.Some? then {"audit.signature"} else {};
    && o.Keys == event.Keys + added
    && (forall k :: k in event && k !in added ==> o[k] == event[k])
    && o["audit.prev_hash"] == Str(prev)
    && IsZeros(o["audit.hash"])
    && (key.Some? ==> IsZeros(o["audit.signature"]))
  }

  /** An event is sealed exactly when it can be encoded with its chain fields in it and the fields
      that seal fills in are then found; and the line is the encoded one but for those. */
  lemma SealsExactly(env: Env, key: Key, event: Object, prev: bytes, o: Object)
    requires Holds(key, event, prev, o)
    ensures var b, r := env.marshal(o), SealLine(env, key, event, prev);
      && (r.Sealed? <==>
            && b.Some? && ChainValue(b.value, "audit.hash").Found?
            && (key.Some? ==> ChainValue(b.value, "audit.signature").Found?))
      && (r.Sealed? ==> FillsIn(env, key, b.value, r.line, r.hash))
  {
    hide SealBytes, ChainValue, HexEncode, Holds, Chained, FillsIn;
    HoldsIsChained(key, event, prev, o);
    var b := env.marshal(o);
    if b.Some? {
      BytesSealed(env, key, b.value);
    }
  }

  lemma BytesSealed(env: Env, key: Key, b: bytes)
    ensures var r := SealBytes(env, key, b);
      && (r.Sealed? <==> ChainValue(b, HASH).Found? && (key.Some? ==> ChainValue(b, SIGNATURE).Found?))
      && (r.Sealed? ==> FillsIn(env, key, b, r.line, r.hash))
  {
    hide ChainValue, Covered, FieldAt, HexEncode, Placeholder;
    ChainValueMeaning(b, HASH);
    ChainValueMeaning(b, SIGNATURE);
    var h, s := ChainValue(b, HASH), ChainValue(b, SIGNATURE);
    if h.Found? && s.Found? {
      FieldsApart(b, h.off, s.off);
    }
    var r := SealBytes(env, key, b);
    if r.Sealed? {
      assert r.line[h.off..h.off + 64] == r.hash;
      if key.Some? {
        assert r.line[s.off..s.off + 64] == HexEncode(env.hmac(key.value, r.hash));
      }
    }
  }

  /** The line is the encoded one with its hash and, under a key, that hash's signature put in. */
  ghost predicate FillsIn(env: Env, key: Key, encoded: bytes, line: bytes, hash: bytes) {
    var h, s := ChainValue(encoded, "audit.hash"), ChainValue(encoded, "audit.signature");
    && h.Found? && (key.Some? ==> s.Found?)
    && |line| == |encoded|
    && line[h.off..h.off + 64] == hash
    && (key.Some? ==> line[s.off..s.off + 64] == HexEncode(env.hmac(key.value, hash)))
    && forall i :: 0 <= i < |line| && !(h.off <= i < h.off + 64) ==>
      line[i] == encoded[i] || (key.Some? && s.off <= i < s.off + 64)
  }

  lemma HoldsIsChained(key: Key, event: Object, prev: bytes, o: Object)
    requires Holds(key, event, prev, o)
    ensures o == Chained(key, event, prev)
  {
    assert o[HASH].s == Placeholder() && (key.Some? ==> o[SIGNATURE].s == Placeholder());
    NamesDiffer();
    WithFields(event, o, PREV_HASH, HASH, SIGNATURE, Str(prev), Str(Placeholder()), key.Some?);
  }

  lemma NamesDiffer()
    ensures PREV_HASH != HASH && PREV_HASH != SIGNATURE && HASH != SIGNATURE
  {
    assert PREV_HASH[6] == 'p' && HASH[6] == 'h' && SIGNATURE[6] == 's';
  }

  /** An object with the keys of another and two or three more is that object, updated. */
  lemma WithFields(event: Object, o: Object, p: string, h: string, s: string, prev: Value, zeros: Value, signed: bool)
    requires p != h && p != s && h != s
    requires o.Keys == event.Keys + ({p, h} + if signed then {s} else {})
    requires o[p] == prev && o[h] == zeros && (signed ==> o[s] == zeros)
    requires forall k :: k in event && k !in {p, h} + (if signed then {s} else {}) ==> o[k] == event[k]
    ensures var c := event[p := prev][h := zeros];
      o == if signed then c[s := zeros] else c
  {
  }
}
