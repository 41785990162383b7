/**
 What every run of the journal keeps: sends, markers, closes, deaths of the process with any
 prefix of a line on disk, and reopenings.
 */
module JournalRuns {
  import opened GoBytes
  import opened Tree
  import opened ChainField
  import opened Chain
  import opened HeadUnique
  import opened Sealing
  import opened Journal

  // ---------------------------------------------------------------------------------------
  // Good files
  // ---------------------------------------------------------------------------------------

  /** Every line is terminated, and Verify's walk over them ends at c. */
  ghost predicate GoodFile(env: Env, key: Key, body: bytes, c: Head) {
    Terminated(body) && Fold(env, key, LinesOf(body)) == Some(c)
  }

  /** A good file is empty or accepted, so nothing less is claimed by the invariant below. */
  lemma GoodIsAccepted(env: Env, key: Key, body: bytes, c: Head)
    requires GoodFile(env, key, body, c)
    ensures body == [] || Accepts(env, key, body)
    ensures AllHex(c.prev)
  {
    hide CheckLine;
    FoldLast(env, key, LinesOf(body));
    if LinesOf(body) != [] {
      HashIsHex(env, key, LinesOf(body));
    }
  }

  lemma HashIsHex(env: Env, key: Key, lines: seq<bytes>)
    requires lines != [] && Fold(env, key, lines).Some?
    ensures AllHex(Fold(env, key, lines).value.prev)
  {
    hide CheckLine, Fold, ChainValue, CoveredLine;
    FoldLast(env, key, lines);
    IntactFacts(env, key, lines[|lines| - 1], Fold(env, key, lines[..|lines| - 1]).value.prev);
  }

  lemma TerminatedSplit(body: bytes)
    requires Terminated(body)
    ensures Split(NEWLINE, body) == LinesOf(body) + [[]]
  {
    if body != [] {
      LastPiece(NEWLINE, body);
    }
  }

  lemma FileGrows(body: bytes, line: bytes)
    requires Terminated(body) && NoNewline(line)
    ensures Terminated(body + (line + [NEWLINE]))
    ensures LinesOf(body + (line + [NEWLINE])) == LinesOf(body) + [line]
  {
    hide Split, LinesOf, Glue;
    TerminatedSplit(body);
    SplitConcat(NEWLINE, body, line);
    SplitWithout(NEWLINE, line);
    GlueLast(LinesOf(body), line);
    assert body + (line + [NEWLINE]) == (body + line) + [NEWLINE];
    SplitEndsInSep(NEWLINE, body + line);
    TerminatedSplit(body + (line + [NEWLINE]));
    var grown := LinesOf(body + (line + [NEWLINE]));
    assert (grown + [[]])[..|grown|] == grown;
    assert (LinesOf(body) + [line] + [[]])[..|LinesOf(body) + [line]|] == LinesOf(body) + [line];
  }

  lemma GlueLast(pieces: seq<bytes>, line: bytes)
    ensures Glue(pieces + [[]], [line]) == pieces + [line]
  {
    assert [] + line == line;
  }

  lemma {:induction false} SplitAtTail(body: bytes, tail: bytes)
    requires Terminated(body) && NoNewline(tail)
    ensures BodyOfFile(body + tail) == body && TailOfFile(body + tail) == tail
  {
    if tail == [] {
      assert body + tail == body;
    } else {
      var front := tail[..|tail| - 1];
      SplitAtTail(body, front);
      assert (body + tail)[..|body + tail| - 1] == body + front;
      assert BodyLength(body + tail) == BodyLength(body + front);
      assert BodyLength(body + front) == |body|;
    }
  }

  lemma ReplayOfGood(env: Env, key: Key, body: bytes, c: Head)
    requires GoodFile(env, key, body, c)
    ensures ReplayFold(env, key, Split(NEWLINE, body)) == Some(c)
  {
    hide Fold, Split, LinesOf;
    TerminatedSplit(body);
    ReplayAgrees(env, key, LinesOf(body));
    assert (LinesOf(body) + [[]])[..|LinesOf(body)|] == LinesOf(body);
  }

  // ---------------------------------------------------------------------------------------
  // The invariant
  // ---------------------------------------------------------------------------------------

  /** While open, the file is good and the object holds Verify's own count and head. While
      closed, at most a torn line follows a good file. */
  ghost predicate Inv(env: Env, key: Key, s: State) {
    if s.open then GoodFile(env, key, s.disk, s.head)
    else exists c :: GoodFile(env, key, BodyOfFile(s.disk), c) && TornTail(env, key, TailOfFile(s.disk), c.prev)
  }

  /** Bytes that recovery sets aside: none, or not an intact line. */
  predicate TornTail(env: Env, key: Key, tail: bytes, prev: bytes) {
    tail == [] || CheckLine(env, key, tail, prev).Broken?
  }

  /** Reopening cuts the torn tail, keeps it in the .partial file, and resumes the chain. */
  lemma OpenRestores(env: Env, key: Key, s: State)
    requires Inv(env, key, s)
    ensures var r := Open(env, key, s);
      && r.ok && r.state.open && Inv(env, key, r.state)
      && (s.open ==> r.state == s)
      && (!s.open ==> r.state.disk == BodyOfFile(s.disk) && r.state.partial == s.partial + TailOfFile(s.disk))
  {
    hide CheckLine, ReplayFold, Fold;
    if !s.open {
      var c :| GoodFile(env, key, BodyOfFile(s.disk), c) && TornTail(env, key, TailOfFile(s.disk), c.prev);
      ReplayOfGood(env, key, BodyOfFile(s.disk), c);
      if TailOfFile(s.disk) == [] {
        assert s.disk == BodyOfFile(s.disk);
        assert s.partial + [] == s.partial;
      }
    }
  }

  // ---------------------------------------------------------------------------------------
  // Writing one line
  // ---------------------------------------------------------------------------------------

  /** An event that does not use the chain's own keys: its marker is no object, and it shows
      no signature an unkeyed journal would leave unwritten. */
  predicate RecordSafe(env: Env, key: Key, event: Object, prev: bytes) {
    ViewOf(event).marker.None? && SignatureSafe(env, key, event, prev)
  }

  /** Some line that seal can write next: a safe record, or a true marker. */
  ghost predicate NextLine(env: Env, key: Key, event: Object, c: Head) {
    RecordSafe(env, key, event, c.prev) || event == MarkerEvent(env, key, c)
  }

  lemma MarkerIsSafe(env: Env, key: Key, c: Head)
    requires JsonLaws(env) && AllHex(c.prev)
    ensures SignatureSafe(env, key, MarkerEvent(env, key, c), c.prev)
    ensures ViewOf(MarkerEvent(env, key, c)).marker ==
      Some(Body(Some(c.records), c.prev, if key.Some? then KeyID(env, key.value) else ""))
    ensures PlainBody(ViewOf(MarkerEvent(env, key, c)).marker.value)
  {
    if key.None? {
      hide HasKey, EndsWith;
      var o := Chained(key, MarkerEvent(env, key, c), c.prev);
      MarkerShowsNoSignature(env, c);
      var b := env.marshal(o);
      if b.Some? {
        ChainValueMeaning(b.value, SIGNATURE);
      }
    }
  }

  lemma MarkerShowsNoSignature(env: Env, c: Head)
    ensures !HasKey(Obj(Chained(None, MarkerEvent(env, None, c), c.prev)), SIGNATURE)
  {
    var o := Chained(None, MarkerEvent(env, None, c), c.prev);
    assert SIGNATURE[|SIGNATURE| - 1] == 'e';
    assert !HasKey(o[MARKER], SIGNATURE) by {
      assert !EndsWith("count", SIGNATURE) && !EndsWith("head", SIGNATURE);
    }
    forall k | k in o
      ensures !EndsWith(k, SIGNATURE) && !HasKey(o[k], SIGNATURE)
    {
      assert k == MARKER || k == PREV_HASH || k == HASH;
      assert k[|k| - 1] != 'e';
    }
  }

  /** The sealed line is the line Verify steps over next, and the count moves with it. */
  lemma SealedSteps(env: Env, key: Key, event: Object, c: Head)
    requires JsonLaws(env) && AllHex(c.prev) && NextLine(env, key, event, c)
    requires SealLine(env, key, event, c.prev).Sealed?
    ensures var sealed := SealLine(env, key, event, c.prev);
      && NoNewline(sealed.line) && sealed.line != []
      && CheckLine(env, key, sealed.line, c.prev).Intact?
      && (event == MarkerEvent(env, key, c) ==>
            StepLine(env, key, c, sealed.line) == Some(Head(c.records, sealed.hash)))
      && (RecordSafe(env, key, event, c.prev) ==>
            StepLine(env, key, c, sealed.line) == Some(Head(c.records + 1, sealed.hash)))
  {
    hide CheckLine, SealLine, JsonLaws, ViewOf, SignatureSafe, MarkerEvent, Decode;
    if event == MarkerEvent(env, key, c) {
      MarkerIsSafe(env, key, c);
    }
    SealedDecodes(env, key, event, c.prev);
    SealedChecks(env, key, event, c.prev);
  }

  lemma AppendKeeps(env: Env, key: Key, s: State, event: Object)
    requires JsonLaws(env) && s.open && Inv(env, key, s)
    requires RecordSafe(env, key, event, s.head.prev)
    ensures AppendRecord(env, key, s, event).state.open
    ensures Inv(env, key, AppendRecord(env, key, s, event).state)
  {
    hide CheckLine, SealLine, JsonLaws, RecordSafe, MarkerEvent, Fold, StepLine, LinesOf;
    GoodIsAccepted(env, key, s.disk, s.head);
    if SealLine(env, key, event, s.head.prev).Sealed? {
      var line := SealLine(env, key, event, s.head.prev).line;
      SealedSteps(env, key, event, s.head);
      FileGrows(s.disk, line);
      FoldSnoc(env, key, LinesOf(s.disk), line);
    }
  }

  /** The other direction: an event that uses the chain's own keys leaves a file Verify refuses,
      or one Verify counts differently from the object. */
  lemma UnsafeRecordBreaks(env: Env, key: Key, s: State, event: Object)
    requires JsonLaws(env) && s.open && Inv(env, key, s)
    requires SealLine(env, key, event, s.head.prev).Sealed?
    requires !SignatureSafe(env, key, event, s.head.prev) ==> SealApart(env, event, s.head.prev)
    requires !RecordSafe(env, key, event, s.head.prev)
    ensures !Inv(env, key, AppendRecord(env, key, s, event).state)
  {
    hide CheckLine, SealLine, JsonLaws, SignatureSafe, ViewOf, SealApart, Decode, Fold, LinesOf;
    GoodIsAccepted(env, key, s.disk, s.head);
    var line := SealLine(env, key, event, s.head.prev).line;
    SealedDecodes(env, key, event, s.head.prev);
    FileGrows(s.disk, line);
    FoldSnoc(env, key, LinesOf(s.disk), line);
    if !SignatureSafe(env, key, event, s.head.prev) {
      assert key.None? by {
        if key.Some? {
          SafeUnderKey(env, key, event, s.head.prev);
        }
      }
      StraySignatureBreaks(env, event, s.head.prev);
    } else {
      SealedChecks(env, key, event, s.head.prev);
    }
  }

  lemma SafeUnderKey(env: Env, key: Key, event: Object, prev: bytes)
    requires key.Some?
    ensures SignatureSafe(env, key, event, prev)
  {
  }

  /** A record that is written keeps the file good exactly when it leaves the chain's own keys
      alone. */
  lemma RecordExactly(env: Env, key: Key, s: State, event: Object)
    requires JsonLaws(env) && s.open && Inv(env, key, s)
    requires SealLine(env, key, event, s.head.prev).Sealed?
    requires !SignatureSafe(env, key, event, s.head.prev) ==> SealApart(env, event, s.head.prev)
    ensures Inv(env, key, AppendRecord(env, key, s, event).state) <==> RecordSafe(env, key, event, s.head.prev)
  {
    hide SealLine, JsonLaws, RecordSafe, Inv, AppendRecord, SealApart, SignatureSafe;
    if RecordSafe(env, key, event, s.head.prev) {
      AppendKeeps(env, key, s, event);
    } else {
      UnsafeRecordBreaks(env, key, s, event);
    }
  }

  lemma MarkerKeeps(env: Env, key: Key, s: State)
    requires JsonLaws(env) && s.open && Inv(env, key, s)
    ensures AppendMarker(env, key, s).state.open
    ensures Inv(env, key, AppendMarker(env, key, s).state)
  {
    hide CheckLine, SealLine, JsonLaws, RecordSafe, MarkerEvent, Fold, StepLine, LinesOf;
    GoodIsAccepted(env, key, s.disk, s.head);
    var event := MarkerEvent(env, key, s.head);
    if SealLine(env, key, event, s.head.prev).Sealed? {
      var line := SealLine(env, key, event, s.head.prev).line;
      SealedSteps(env, key, event, s.head);
      FileGrows(s.disk, line);
      FoldSnoc(env, key, LinesOf(s.disk), line);
    }
  }

  // ---------------------------------------------------------------------------------------
  // Dying in the middle of a write
  // ---------------------------------------------------------------------------------------

  /** The process dies with k bytes of event's line on disk. */
  function Die(env: Env, key: Key, s: State, event: Object, k: nat): State {
    match SealLine(env, key, event, s.head.prev)
    case Refused => s.(open := false)
    case Sealed(line, _) =>
      var w := line + [NEWLINE];
      s.(disk := s.disk + w[..if k <= |w| then k else |w|], open := false)
  }

  /** SHA-256 tells a line from its first k bytes, as each is covered. */
  ghost predicate TearApart(env: Env, line: bytes, k: nat) {
    k < |line| && ChainValue(line[..k], HASH).Found? && ChainValue(line, HASH).Found?
    ==> NoCollision(env, CoveredLine(line[..k]), CoveredLine(line))
  }

  /** The two things a death in a write must not be: the loss of exactly the newline, and a
      collision of SHA-256. */
  ghost predicate TearSafe(env: Env, key: Key, s: State, event: Object, k: nat) {
    var sealed := SealLine(env, key, event, s.head.prev);
    sealed.Sealed? ==> k != |sealed.line| && TearApart(env, sealed.line, k)
  }

  /** A line cut short is never intact: it would carry its own line's hash over fewer bytes. */
  lemma TornIsBroken(env: Env, key: Key, line: bytes, k: nat, prev: bytes, prev': bytes)
    requires k < |line| && CheckLine(env, key, line, prev).Intact? && TearApart(env, line, k)
    ensures CheckLine(env, key, line[..k], prev').Broken?
  {
    hide CheckLine, ChainValue, CoveredLine, Occurs;
    var p := line[..k];
    if CheckLine(env, key, p, prev').Intact? {
      IntactFacts(env, key, line, prev);
      IntactFacts(env, key, p, prev');
      ChainValueMeaning(line, HASH);
      ChainValueMeaning(p, HASH);
      PrefixOccurs(line, k, Marker(HASH), ChainValue(p, HASH).off - |Marker(HASH)|);
      assert ChainValue(p, HASH).value == ChainValue(line, HASH).value;
      HexEncodeInjective(env.sha(CoveredLine(p)), env.sha(CoveredLine(line)));
      CoveredCases(p);
      CoveredCases(line);
      assert false;
    }
  }

  lemma PrefixOccurs(line: bytes, k: nat, pat: bytes, at: int)
    requires k <= |line| && Occurs(line[..k], pat, at)
    ensures Occurs(line, pat, at)
  {
  }

  lemma WholeLineLands(env: Env, key: Key, s: State, event: Object)
    requires JsonLaws(env) && s.open && Inv(env, key, s) && NextLine(env, key, event, s.head)
    requires SealLine(env, key, event, s.head.prev).Sealed?
    ensures var line := SealLine(env, key, event, s.head.prev).line;
      && StepLine(env, key, s.head, line).Some?
      && GoodFile(env, key, s.disk + (line + [NEWLINE]), StepLine(env, key, s.head, line).value)
  {
    hide CheckLine, SealLine, JsonLaws, RecordSafe, MarkerEvent, Fold, StepLine, LinesOf;
    GoodIsAccepted(env, key, s.disk, s.head);
    var line := SealLine(env, key, event, s.head.prev).line;
    SealedSteps(env, key, event, s.head);
    FileGrows(s.disk, line);
    FoldSnoc(env, key, LinesOf(s.disk), line);
  }

  /** The file a death leaves: the good file, then the prefix that landed. */
  lemma DeadFile(env: Env, key: Key, s: State, body: bytes, tail: bytes, c: Head)
    requires !s.open && s.disk == body + tail
    requires GoodFile(env, key, body, c) && NoNewline(tail) && TornTail(env, key, tail, c.prev)
    ensures Inv(env, key, s)
  {
    hide CheckLine, Fold;
    SplitAtTail(body, tail);
  }

  lemma DieKeeps(env: Env, key: Key, s: State, event: Object, k: nat)
    requires JsonLaws(env) && s.open && Inv(env, key, s)
    requires NextLine(env, key, event, s.head) && TearSafe(env, key, s, event, k)
    ensures Inv(env, key, Die(env, key, s, event, k))
  {
    hide CheckLine, SealLine, JsonLaws, Fold, TearApart, NextLine, GoodFile, StepLine;
    GoodIsAccepted(env, key, s.disk, s.head);
    var d := Die(env, key, s, event, k);
    var sealed := SealLine(env, key, event, s.head.prev);
    if sealed.Refused? {
      assert s.disk + [] == s.disk;
      DeadFile(env, key, d, s.disk, [], s.head);
    } else {
      var line := sealed.line;
      SealedSteps(env, key, event, s.head);
      if k < |line| {
        assert (line + [NEWLINE])[..k] == line[..k];
        TornIsBroken(env, key, line, k, s.head.prev, s.head.prev);
        DeadFile(env, key, d, s.disk, line[..k], s.head);
      } else {
        WholeLineLands(env, key, s, event);
        assert (line + [NEWLINE])[..|line| + 1] == line + [NEWLINE];
        assert d.disk + [] == d.disk;
        DeadFile(env, key, d, d.disk, [], StepLine(env, key, s.head, line).value);
      }
    }
  }

  // ---------------------------------------------------------------------------------------
  // Losing exactly the newline
  // ---------------------------------------------------------------------------------------

  /** Recovery writes the intact tail a second time behind itself, so the last line shows two
      hashes: Verify refuses the file, and no later process can open it. */
  lemma LostNewlineBreaks(env: Env, key: Key, s: State, event: Object)
    requires JsonLaws(env) && s.open && Inv(env, key, s) && NextLine(env, key, event, s.head)
    requires SealLine(env, key, event, s.head.prev).Sealed?
    ensures var line := SealLine(env, key, event, s.head.prev).line;
      var r := Open(env, key, Die(env, key, s, event, |line|));
      && r.ok && r.state.disk == s.disk + (line + line + [NEWLINE])
      && !Accepts(env, key, r.state.disk)
      && !Open(env, key, r.state.(open := false)).ok
  {
    hide CheckLine, SealLine, JsonLaws, NextLine, Open, MarkerEvent, RecordSafe, GoodFile, Accepts, StepLine;
    GoodIsAccepted(env, key, s.disk, s.head);
    var line := SealLine(env, key, event, s.head.prev).line;
    SealedSteps(env, key, event, s.head);
    var d := Die(env, key, s, event, |line|);
    assert (line + [NEWLINE])[..|line|] == line;
    OpenWholeTail(env, key, d, s.disk, line, s.head);
    assert (s.disk + line) + (line + [NEWLINE]) == s.disk + (line + line + [NEWLINE]);
    DoubledFile(env, key, s.disk, line, s.head);
  }

  lemma DoubledFile(env: Env, key: Key, body: bytes, line: bytes, c: Head)
    requires GoodFile(env, key, body, c) && NoNewline(line) && line != [] && CheckLine(env, key, line, c.prev).Intact?
    ensures !Accepts(env, key, body + (line + line + [NEWLINE]))
    ensures forall s: State :: s.disk == body + (line + line + [NEWLINE]) && !s.open ==> !Open(env, key, s).ok
  {
    hide CheckLine, Open, ReplayFold, Fold, StepLine, Accepts;
    FileGrows(body, line + line);
    DoubledIsBroken(env, key, line, c.prev, c.prev);
    RefusedLast(env, key, body + (line + line + [NEWLINE]), LinesOf(body), line + line, c);
  }

  lemma OpenWholeTail(env: Env, key: Key, s: State, body: bytes, tail: bytes, c: Head)
    requires !s.open && s.disk == body + tail && GoodFile(env, key, body, c)
    requires NoNewline(tail) && tail != [] && CheckLine(env, key, tail, c.prev).Intact?
    ensures var r := Open(env, key, s);
      r.ok && r.state.open && r.state.disk == s.disk + (tail + [NEWLINE])
  {
    hide CheckLine, Fold, ReplayFold;
    SplitAtTail(body, tail);
    ReplayOfGood(env, key, body, c);
  }

  /** A line written twice in a row shows its hash field twice. */
  lemma DoubledIsBroken(env: Env, key: Key, line: bytes, prev: bytes, prev': bytes)
    requires CheckLine(env, key, line, prev).Intact?
    ensures CheckLine(env, key, line + line, prev') == Broken(BadHashField(Duplicate))
  {
    hide ChainValue, CoveredLine;
    IntactFacts(env, key, line, prev);
    ChainValueMeaning(line, HASH);
    var p := ChainValue(line, HASH).off - |Marker(HASH)|;
    assert Occurs(line + line, Marker(HASH), p);
    assert Occurs(line + line, Marker(HASH), |line| + p);
    TwiceIsDuplicate(line + line, HASH, p, |line| + p);
  }

  /** A terminated file whose last line is broken is refused by Verify and by recovery. */
  lemma RefusedLast(env: Env, key: Key, disk: bytes, lines: seq<bytes>, last: bytes, c: Head)
    requires Terminated(disk) && LinesOf(disk) == lines + [last]
    requires Fold(env, key, lines) == Some(c) && last != []
    requires CheckLine(env, key, last, c.prev).Broken?
    ensures !Accepts(env, key, disk)
    ensures ReplayFold(env, key, Split(NEWLINE, disk)).None?
    ensures forall s: State :: s.disk == disk && !s.open ==> !Open(env, key, s).ok
  {
    hide CheckLine;
    FoldSnoc(env, key, lines, last);
    assert (lines + [last])[..|lines|] == lines;
    ReplayAgrees(env, key, lines);
    TerminatedSplit(disk);
    var all := lines + [last];
    assert ReplayFold(env, key, all).None?;
    assert (all + [[]])[..|all|] == all;
    SplitAtTail(disk, []);
    assert disk + [] == disk;
  }

  /** A death while a line is written: after reopening the file is empty or accepted, exactly
      when it was not the newline alone that was lost. */
  lemma ReopenAfterDeath(env: Env, key: Key, s: State, event: Object, k: nat)
    requires JsonLaws(env) && s.open && Inv(env, key, s) && NextLine(env, key, event, s.head)
    requires SealLine(env, key, event, s.head.prev).Sealed?
    requires TearApart(env, SealLine(env, key, event, s.head.prev).line, k)
    ensures var r := Open(env, key, Die(env, key, s, event, k));
      (r.ok && (r.state.disk == [] || Accepts(env, key, r.state.disk)))
      <==> k != |SealLine(env, key, event, s.head.prev).line|
  {
    hide CheckLine, SealLine, JsonLaws, Fold, TearApart, NextLine, ReplayFold;
    if k == |SealLine(env, key, event, s.head.prev).line| {
      LostNewlineBreaks(env, key, s, event);
    } else {
      DieKeeps(env, key, s, event, k);
      var d := Die(env, key, s, event, k);
      OpenRestores(env, key, d);
      var r := Open(env, key, d);
      GoodIsAccepted(env, key, r.state.disk, r.state.head);
    }
  }

  // ---------------------------------------------------------------------------------------
  // Runs
  // ---------------------------------------------------------------------------------------

  /** One thing a process does to the journal, or one way it dies. The Die steps open the file
      first when needed, as Send does. */
  datatype Step =
    | Sends(event: Object)
    | Closes
    | DiesIdle
    | DiesInRecord(event: Object, k: nat)
    | DiesInMarker(k: nat)

  function Take(env: Env, key: Key, s: State, step: Step): State {
    match step
    case Sends(event) => Send(env, key, s, event).state
    case Closes => Close(env, key, s)
    case DiesIdle => s.(open := false)
    case DiesInRecord(event, k) => Die(env, key, Open(env, key, s).state, event, k)
    case DiesInMarker(k) =>
      var o := Open(env, key, s).state;
      Die(env, key, o, MarkerEvent(env, key, o.head), k)
  }

  /** What a run is asked for at one step, all of it readable before the step. */
  ghost predicate StepSafe(env: Env, key: Key, s: State, step: Step) {
    var o := Open(env, key, s).state;
    match step
    case Sends(event) => RecordSafe(env, key, event, o.head.prev)
    case Closes => true
    case DiesIdle => true
    case DiesInRecord(event, k) => RecordSafe(env, key, event, o.head.prev) && TearSafe(env, key, o, event, k)
    case DiesInMarker(k) => TearSafe(env, key, o, MarkerEvent(env, key, o.head), k)
  }

  lemma SendKeeps(env: Env, key: Key, s: State, event: Object)
    requires JsonLaws(env) && Inv(env, key, s)
    requires RecordSafe(env, key, event, Open(env, key, s).state.head.prev)
    ensures Inv(env, key, Send(env, key, s, event).state) && Send(env, key, s, event).state.open
  {
    hide Open, AppendRecord, AppendMarker, JsonLaws, RecordSafe, Inv;
    OpenRestores(env, key, s);
    var o := Open(env, key, s).state;
    AppendKeeps(env, key, o, event);
    var wrote := AppendRecord(env, key, o, event);
    if wrote.ok && wrote.state.head.records % MARKER_EVERY == 0 {
      MarkerKeeps(env, key, wrote.state);
    }
  }

  lemma StepKeeps(env: Env, key: Key, s: State, step: Step)
    requires JsonLaws(env) && Inv(env, key, s) && StepSafe(env, key, s, step)
    ensures Inv(env, key, Take(env, key, s, step))
  {
    hide Open, AppendRecord, AppendMarker, JsonLaws, RecordSafe, GoodFile, Send, TearSafe, Die, MarkerEvent;
    OpenRestores(env, key, s);
    var o := Open(env, key, s).state;
    match step
    case Sends(event) => SendKeeps(env, key, s, event);
    case Closes =>
      if s.open {
        MarkerKeeps(env, key, s);
        StopsClean(env, key, AppendMarker(env, key, s).state);
        StopsClean(env, key, s);
      }
    case DiesIdle => StopsClean(env, key, s);
    case DiesInRecord(event, k) => DieKeeps(env, key, o, event, k);
    case DiesInMarker(k) => DieKeeps(env, key, o, MarkerEvent(env, key, o.head), k);
  }

  lemma StopsClean(env: Env, key: Key, s: State)
    requires Inv(env, key, s)
    ensures Inv(env, key, s.(open := false))
  {
    hide CheckLine, Fold;
    if s.open {
      assert s.disk + [] == s.disk;
      DeadFile(env, key, s.(open := false), s.disk, [], s.head);
    }
  }

  function Run(env: Env, key: Key, steps: seq<Step>): State {
    if steps == [] then State([], [], false, START)
    else Take(env, key, Run(env, key, steps[..|steps| - 1]), steps[|steps| - 1])
  }

  ghost predicate RunSafe(env: Env, key: Key, steps: seq<Step>) {
    forall i :: 0 <= i < |steps| ==> StepSafe(env, key, Run(env, key, steps[..i]), steps[i])
  }

  lemma {:induction false} RunKeeps(env: Env, key: Key, steps: seq<Step>)
    requires JsonLaws(env) && RunSafe(env, key, steps)
    ensures Inv(env, key, Run(env, key, steps))
  {
    hide Take, JsonLaws, StepSafe, Inv;
    if steps == [] {
      FreshFile(env, key);
    } else {
      var front := steps[..|steps| - 1];
      forall i | 0 <= i < |front|
        ensures StepSafe(env, key, Run(env, key, front[..i]), front[i])
      {
        assert front[..i] == steps[..i];
      }
      RunKeeps(env, key, front);
      StepKeeps(env, key, Run(env, key, front), steps[|steps| - 1]);
    }
  }

  lemma FreshFile(env: Env, key: Key)
    ensures Inv(env, key, State([], [], false, START))
  {
    assert GoodFile(env, key, [], START);
    assert BodyOfFile([]) == [] && TailOfFile([]) == [];
  }

  /** A good file that is not empty is accepted for its own head, and for no other. */
  lemma GoodHead(env: Env, key: Key, body: bytes, c: Head, want: bytes)
    requires GoodFile(env, key, body, c) && body != []
    ensures VerifyHead(env, key, body, want) <==> want == c.prev
  {
    hide CheckLine, Fold, VerifyHead;
    GoodIsAccepted(env, key, body, c);
    HeadExactly(env, key, body, want);
  }

  /** After every run VerifyHead accepts the file for the head the object holds, and for no other:
      at once while the journal is open, and after the next open in any case. */
  lemma EveryRunHead(env: Env, key: Key, steps: seq<Step>, want: bytes)
    requires JsonLaws(env) && RunSafe(env, key, steps)
    ensures var s, r := Run(env, key, steps), Open(env, key, Run(env, key, steps)).state;
      && (s.open && s.disk != [] ==> (VerifyHead(env, key, s.disk, want) <==> want == s.head.prev))
      && (r.disk != [] ==> (VerifyHead(env, key, r.disk, want) <==> want == r.head.prev))
  {
    hide Open, Run, JsonLaws, RunSafe, VerifyHead, GoodFile;
    RunKeeps(env, key, steps);
    OpenRestores(env, key, Run(env, key, steps));
    var s, r := Run(env, key, steps), Open(env, key, Run(env, key, steps)).state;
    if s.open && s.disk != [] {
      GoodHead(env, key, s.disk, s.head, want);
    }
    if r.disk != [] {
      GoodHead(env, key, r.disk, r.head, want);
    }
  }

  /** After every run, from an empty file, the next open succeeds and leaves a file that is
      empty or that Verify accepts, and the object resumes with Verify's own count and head. */
  lemma EveryRunVerifies(env: Env, key: Key, steps: seq<Step>)
    requires JsonLaws(env) && RunSafe(env, key, steps)
    ensures var r := Open(env, key, Run(env, key, steps));
      && r.ok
      && (r.state.disk == [] || Accepts(env, key, r.state.disk))
      && Fold(env, key, LinesOf(r.state.disk)) == Some(r.state.head)
  {
    hide Open, Run, JsonLaws, RunSafe;
    RunKeeps(env, key, steps);
    OpenRestores(env, key, Run(env, key, steps));
    var r := Open(env, key, Run(env, key, steps));
    GoodIsAccepted(env, key, r.state.disk, r.state.head);
  }
}
