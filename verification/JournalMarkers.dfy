/**
 audit/journal.go: which lines a send and a close add, and what their markers state. A reader of
 the file sees a count after every hundredth record and at the end of a closed journal.
 */
module JournalMarkers {
  import opened GoBytes
  import opened Tree
  import opened Chain
  import opened Sealing
  import opened Journal
  import opened JournalRuns

  /** What a reader of the line sees of a marker. */
  function MarkerOf(env: Env, line: bytes): Option<Body> {
    var v := Decode(env, line);
    if v.None? then None else v.value.marker
  }

  /** The marker a journal with this count and head writes. */
  function TrueMarker(env: Env, key: Key, head: Head): Body {
    Body(Some(head.records), head.prev, if key.Some? then HexEncode(env.sha(key.value))[..16] else "")
  }

  /** A record adds one line, and a reader sees no marker in it. */
  lemma RecordLine(env: Env, key: Key, s: State, event: Object) returns (line: bytes)
    requires JsonLaws(env) && s.open && Inv(env, key, s) && RecordSafe(env, key, event, s.head.prev)
    requires AppendRecord(env, key, s, event).ok
    ensures LinesOf(AppendRecord(env, key, s, event).state.disk) == LinesOf(s.disk) + [line]
    ensures MarkerOf(env, line) == None
    ensures AppendRecord(env, key, s, event).state.head.records == s.head.records + 1
  {
    hide CheckLine, SealLine, JsonLaws, SignatureSafe, MarkerEvent, Fold, StepLine, LinesOf, Decode, ViewOf;
    GoodIsAccepted(env, key, s.disk, s.head);
    line := SealLine(env, key, event, s.head.prev).line;
    SealedDecodes(env, key, event, s.head.prev);
    FileGrows(s.disk, line);
  }

  /** A marker adds one line, and a reader sees the journal's own count, head and key in it. */
  lemma MarkerLine(env: Env, key: Key, s: State) returns (line: bytes)
    requires JsonLaws(env) && s.open && Inv(env, key, s)
    requires AppendMarker(env, key, s).ok
    ensures LinesOf(AppendMarker(env, key, s).state.disk) == LinesOf(s.disk) + [line]
    ensures MarkerOf(env, line) == Some(TrueMarker(env, key, s.head))
    ensures AppendMarker(env, key, s).state.head.records == s.head.records
  {
    hide CheckLine, SealLine, JsonLaws, SignatureSafe, MarkerEvent, Fold, StepLine, LinesOf, Decode, ViewOf, HexEncode;
    GoodIsAccepted(env, key, s.disk, s.head);
    var event := MarkerEvent(env, key, s.head);
    MarkerIsSafe(env, key, s.head);
    line := SealLine(env, key, event, s.head.prev).line;
    SealedDecodes(env, key, event, s.head.prev);
    FileGrows(s.disk, line);
  }

  /** One send: the lines it finds stay, its record is added, and a marker with the new count
      follows exactly when that count is a multiple of one hundred. */
  lemma SendMarks(env: Env, key: Key, s: State, event: Object) returns (added: seq<bytes>)
    requires JsonLaws(env) && Inv(env, key, s)
    requires RecordSafe(env, key, event, Open(env, key, s).state.head.prev)
    requires Send(env, key, s, event).ok
    ensures LinesOf(Send(env, key, s, event).state.disk) == LinesOf(Open(env, key, s).state.disk) + added
    ensures added != [] && MarkerOf(env, added[0]) == None
    ensures var records := Send(env, key, s, event).state.head.records;
      && records == Open(env, key, s).state.head.records + 1
      && |added| == (if records % 100 == 0 then 2 else 1)
      && (records % 100 == 0 ==> MarkerOf(env, added[1]).Some? && MarkerOf(env, added[1]).value.count == Some(records))
  {
    hide Open, AppendRecord, AppendMarker, JsonLaws, RecordSafe, Inv, LinesOf, MarkerOf;
    OpenRestores(env, key, s);
    var o := Open(env, key, s).state;
    AppendKeeps(env, key, o, event);
    var wrote := AppendRecord(env, key, o, event);
    var line := RecordLine(env, key, o, event);
    added := [line];
    if wrote.state.head.records % 100 == 0 {
      var marker := MarkerLine(env, key, wrote.state);
      added := added + [marker];
    }
  }

  /** A close adds one line, a marker with the final count, or none to a journal that was not
      open, had no record, or could not encode its marker. */
  lemma CloseMarks(env: Env, key: Key, s: State) returns (added: seq<bytes>)
    requires JsonLaws(env) && Inv(env, key, s)
    ensures LinesOf(Close(env, key, s).disk) == LinesOf(s.disk) + added && !Close(env, key, s).open
    ensures added == [] <==> !s.open || s.head.records == 0 || !AppendMarker(env, key, s).ok
    ensures added != [] ==> |added| == 1 && MarkerOf(env, added[0]) == Some(TrueMarker(env, key, s.head))
  {
    hide AppendMarker, JsonLaws, Inv, LinesOf, MarkerOf, TrueMarker;
    added := [];
    if s.open && s.head.records > 0 && AppendMarker(env, key, s).ok {
      var line := MarkerLine(env, key, s);
      added := [line];
    } else if s.open && s.head.records > 0 {
      RefusedKeeps(env, key, s);
    }
  }

  lemma RefusedKeeps(env: Env, key: Key, s: State)
    requires !AppendMarker(env, key, s).ok
    ensures AppendMarker(env, key, s).state == s
  {
    hide SealLine;
  }
}
