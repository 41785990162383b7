/**
 The laws the journal lemmas ask of JSON can be met: here is an encoding that meets them, under
 which a line is sealed.
 */
module JournalLaws {
  import opened GoBytes
  import opened Tree
  import opened ChainField
  import opened Chain
  import opened HeadUnique
  import opened Sealing
  import opened Journal
  import opened JournalRuns

  /** The one line this encoding writes. */
  function Template(): (t: bytes)
    ensures |t| == 79
    ensures t[..14] == Marker(HASH) && t[14..78] == Placeholder() && t[78..] == ['"']
  {
    assert |Marker(HASH)| == 14;
    Marker(HASH) + Placeholder() + ['"']
  }

  predicate Like(line: bytes) {
    |line| == 79 && line[..14] == Marker(HASH) && line[78..] == ['"']
  }

  /** What seal encodes of the first event of an unkeyed journal. */
  function First(event: Object): Object {
    Chained(None, event, "")
  }

  function Zeros(): Digest {
    seq(32, _ => 0)
  }

  function OneLine(event: Object): Env {
    Env(_ => Zeros(), (_, _) => Zeros(),
        o => if o == First(event) then Some(Template()) else None,
        line => if Like(line) then Some(First(event)) else None)
  }

  lemma HashStands(line: bytes, f: string, off: nat)
    requires Like(line) && FieldName(f) && FieldAt(line, f, off)
    ensures f == HASH && off == 14
  {
    assert |Marker(HASH)| == 14 && |Marker(SIGNATURE)| == 19;
    if f == HASH {
      assert Occurs(line, Marker(HASH), 0);
    }
  }

  lemma LikeStays(line: bytes, f: string, off: nat, v: bytes)
    requires FieldName(f) && FieldAt(line, f, off) && |v| == 64 && AllHex(v)
    ensures off + 64 <= |line| && Like(Patch(line, off, v)) == Like(line)
  {
    hide FieldAt, ChainValue, Marker, Like, AllHex;
    FieldFits(line, f, off);
    PatchKeepsField(line, f, off, v, f);
    var p := Patch(line, off, v);
    if off == 14 && |line| == 79 {
      assert p[..14] == line[..14] && p[78..] == line[78..];
      LikeEnds(line, p);
    } else {
      if Like(line) {
        LikeLength(line);
        HashStands(line, f, off);
      }
      if Like(p) {
        LikeLength(p);
        HashStands(p, f, off);
      }
    }
  }

  lemma LikeEnds(line: bytes, p: bytes)
    requires |line| == |p| == 79 && line[..14] == p[..14] && line[78..] == p[78..]
    ensures Like(line) == Like(p)
  {
  }

  lemma LikeLength(line: bytes)
    requires Like(line)
    ensures |line| == 79
  {
  }

  lemma TemplateAt(k: nat)
    requires k < 79
    ensures Template()[k] == if k < 14 then Marker(HASH)[k] else if k < 78 then '0' else '"'
  {
    var t := Template();
    if k < 14 {
      assert t[k] == t[..14][k];
    } else if k < 78 {
      assert t[k] == t[14..78][k - 14];
    } else {
      assert t[k] == t[78..][0];
    }
  }

  /** A quote before an "a" stands only at the start. */
  lemma NameAtStart(m: bytes, p: nat)
    requires Occurs(Template(), m, p) && |m| >= 2 && m[0] == '"' && m[1] == 'a'
    ensures p == 0
  {
    hide Template;
    TemplateAt(p);
    TemplateAt(p + 1);
    assert Template()[p + 0] == m[0] && Template()[p + 1] == m[1];
  }

  lemma NoSignature(p: int)
    ensures !Occurs(Template(), Marker(SIGNATURE), p)
  {
    hide Template;
    var m := Marker(SIGNATURE);
    TemplateAt(7);
    assert |m| == 19 && m[0] == '"' && m[1] == 'a' && m[7] == 's' && Template()[7] == 'h';
    if Occurs(Template(), m, p) {
      NameAtStart(m, p);
    }
  }

  lemma HashIsKey(event: Object)
    ensures HasKey(Obj(First(event)), HASH)
  {
    assert HASH in First(event) && EndsWith(HASH, HASH);
  }

  lemma TemplateReads()
    ensures NoNewline(Template()) && Like(Template())
  {
    var m := Marker(HASH);
    assert m[..7] == "\"audit." && m[7..] == "hash\":\"";
    assert forall k :: 0 <= k < 7 ==> m[k] == m[..7][k];
    assert forall k :: 7 <= k < 14 ==> m[k] == m[7..][k - 7];
    forall k | 0 <= k < 79
      ensures Template()[k] != NEWLINE
    {
      TemplateAt(k);
    }
  }

  lemma TemplateSeals()
    ensures FieldAt(Template(), HASH, 14) && ChainValue(Template(), HASH).Found?
  {
    var m := Marker(HASH);
    assert |m| == 14 && m[0] == '"' && m[1] == 'a';
    forall k | 0 <= k < 79
      ensures Template()[k] == if k < 14 then m[k] else if k < 78 then '0' else '"'
    {
      TemplateAt(k);
    }
    hide Template;
    assert Occurs(Template(), m, 0);
    forall p | Occurs(Template(), m, p)
      ensures p == 0
    {
      NameAtStart(m, p);
    }
    ChainValueMeaning(Template(), HASH);
  }

  lemma Blind(event: Object)
    ensures HexBlind(OneLine(event))
  {
    hide FieldAt, Like, Patch;
    var env := OneLine(event);
    forall line, field, off: nat, v | FieldName(field) && FieldAt(line, field, off) && |v| == 64 && AllHex(v)
      ensures off + 64 <= |line| && Decode(env, Patch(line, off, v)) == Decode(env, line)
    {
      LikeStays(line, field, off, v);
    }
  }

  lemma IsFaithful(event: Object)
    ensures Faithful(OneLine(event))
  {
    var env := OneLine(event);
    TemplateReads();
    HashIsKey(event);
    hide Template, Like, HasKey, Occurs, Marker, First, ViewOf;
    forall o, field, p | FieldName(field) && env.marshal(o).Some? && !HasKey(Obj(o), field)
      ensures !Occurs(env.marshal(o).value, Marker(field), p)
    {
      NoSignature(p);
    }
  }

  /** The laws hold of this encoding, whatever the event, and the event is sealed under it. */
  lemma LawsCanHold(event: Object)
    ensures JsonLaws(OneLine(event)) && SealLine(OneLine(event), None, event, "").Sealed?
  {
    Blind(event);
    IsFaithful(event);
    TemplateSeals();
    hide HexBlind, Faithful, Template, FieldAt, ChainValue;
  }

  lemma ShowsNoSignature(event: Object)
    ensures SignatureSafe(OneLine(event), None, event, "")
  {
    hide Template, Occurs;
    forall p
      ensures !Occurs(Template(), Marker(SIGNATURE), p)
    {
      NoSignature(p);
    }
  }

  lemma OpensFresh(env: Env)
    ensures Open(env, None, State([], [], false, START)) == Done(State([], [], true, START), true)
    ensures Inv(env, None, State([], [], false, START)) && Inv(env, None, State([], [], true, START))
  {
    hide Open, CheckLine;
    var s := State([], [], false, START);
    NoLines(env);
    assert BodyOfFile([]) == [] && TailOfFile([]) == [];
    assert GoodFile(env, None, BodyOfFile(s.disk), START) && TornTail(env, None, TailOfFile(s.disk), START.prev);
    OpenRestores(env, None, s);
  }

  lemma NoLines(env: Env)
    ensures LinesOf([]) == [] && Fold(env, None, []) == Some(START)
  {
  }

  lemma RecordIsFirst(env: Env, event: Object)
    requires SealLine(env, None, event, "").Sealed?
    ensures var r := AppendRecord(env, None, State([], [], true, START), event);
      r.ok && r.state.open && r.state.head.records == 1
  {
    hide SealLine;
  }

  /** So an audit event may use the chain's own marker and be sealed all the same: this one, sent
      first, leaves a file that Verify refuses or counts differently from the object. */
  lemma SealedAndUnsafe()
    ensures var event, s := map["audit" := Obj(map[]), MARKER := Obj(map[])], State([], [], false, START);
      var env := OneLine(event);
      && JsonLaws(env) && SealLine(env, None, event, "").Sealed? && Inv(env, None, s)
      && !RecordSafe(env, None, event, "") && Send(env, None, s, event).state.open
      && !Inv(env, None, Send(env, None, s, event).state)
  {
    hide SealLine, JsonLaws, SignatureSafe, AppendRecord, ReplayFold;
    var event, s := map["audit" := Obj(map[]), MARKER := Obj(map[])], State([], [], false, START);
    var env := OneLine(event);
    LawsCanHold(event);
    ShowsNoSignature(event);
    OpensFresh(env);
    RecordExactly(env, None, s.(open := true), event);
    RecordIsFirst(env, event);
  }
}
