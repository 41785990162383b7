/** audit/journal.go: the journal file only grows, whatever is sent and however a process dies. */
module JournalKeeps {
  import opened GoBytes
  import opened Tree
  import opened Chain
  import opened Journal
  import opened JournalRuns

  /** Every byte of s is where it was in t, or its unfinished last line has moved to the end of the
      .partial file. */
  ghost predicate Kept(s: State, t: State) {
    || (s.disk <= t.disk && s.partial <= t.partial)
    || (BodyOfFile(s.disk) <= t.disk && s.partial + TailOfFile(s.disk) <= t.partial)
  }

  lemma OpenKeeps(env: Env, key: Key, s: State)
    ensures Kept(s, Open(env, key, s).state)
    ensures Open(env, key, s).state.open == (s.open || Open(env, key, s).ok)
  {
    hide CheckLine, ReplayFold, Split;
  }

  lemma AppendAdds(env: Env, key: Key, s: State, event: Object)
    ensures var t := Append(env, key, s, event).state;
      s.disk <= t.disk && s.partial == t.partial && s.open == t.open
  {
    hide SealLine;
  }

  /** The Append of a Send or a Close comes after the Open, and adds behind what that left. */
  lemma KeptLonger(s: State, t: State, u: State)
    requires Kept(s, t) && t.disk <= u.disk && t.partial <= u.partial
    ensures Kept(s, u)
  {
    hide BodyLength;
  }

  /** No step, a death included, changes or removes a byte of the file but to save an unfinished
      line; and only a Send leaves the journal open. */
  lemma StepKeepsBytes(env: Env, key: Key, s: State, step: Step)
    ensures Kept(s, Take(env, key, s, step))
    ensures Take(env, key, s, step).open <==> step.Sends? && (s.open || Open(env, key, s).ok)
  {
    hide Open, Append, SealLine, MarkerEvent, Kept;
    OpenKeeps(env, key, s);
    var o := Open(env, key, s).state;
    match step
    case Sends(event) =>
      AppendAdds(env, key, o, event);
      var wrote := AppendRecord(env, key, o, event).state;
      AppendAdds(env, key, wrote, MarkerEvent(env, key, wrote.head));
      KeptLonger(s, o, Send(env, key, s, event).state);
    case Closes =>
      SelfKept(s);
      AppendAdds(env, key, s, MarkerEvent(env, key, s.head));
      KeptLonger(s, s, Close(env, key, s));
    case DiesIdle => SelfKept(s);
    case DiesInRecord(event, k) =>
      DeathAdds(env, key, o, event, k);
      KeptLonger(s, o, Die(env, key, o, event, k));
    case DiesInMarker(k) =>
      DeathAdds(env, key, o, MarkerEvent(env, key, o.head), k);
      KeptLonger(s, o, Die(env, key, o, MarkerEvent(env, key, o.head), k));
  }

  lemma SelfKept(s: State)
    ensures Kept(s, s) && Kept(s, s.(open := false))
  {
    hide BodyLength;
  }

  /** A death in a write leaves the first k bytes of the line and its newline. */
  lemma DeathAdds(env: Env, key: Key, s: State, event: Object, k: nat)
    ensures var t, sealed := Die(env, key, s, event, k), SealLine(env, key, event, s.head.prev);
      && !t.open && t.partial == s.partial && s.disk <= t.disk
      && (sealed.Refused? ==> t.disk == s.disk)
      && (sealed.Sealed? && k <= |sealed.line| ==> t.disk == s.disk + sealed.line[..k])
      && (sealed.Sealed? && k > |sealed.line| ==> t.disk == s.disk + sealed.line + "\n")
  {
    hide SealLine;
    var sealed := SealLine(env, key, event, s.head.prev);
    if sealed.Sealed? {
      var w := sealed.line + [NEWLINE];
      assert w[..|w|] == w && (k <= |sealed.line| ==> w[..k] == sealed.line[..k]);
      assert s.disk + w == s.disk + sealed.line + "\n";
    }
  }

  lemma TerminatedPrefix(p: bytes, d: bytes)
    requires Terminated(p) && p <= d
    ensures p <= BodyOfFile(d)
  {
    hide BodyLength;
    var n := BodyLength(d);
    forall i | n <= i < |d|
      ensures d[i] != NEWLINE
    {
      assert d[n..][i - n] == d[i];
    }
  }

  /** Over every run: a finished line stays where it is in the file for good. */
  lemma {:induction false} LinesStay(env: Env, key: Key, steps: seq<Step>, i: nat)
    requires i <= |steps|
    ensures BodyOfFile(Run(env, key, steps[..i]).disk) <= Run(env, key, steps).disk
    decreases |steps|
  {
    hide Take, BodyLength;
    if i == |steps| {
      assert steps[..i] == steps;
    } else {
      var n := |steps| - 1;
      LinesStay(env, key, steps[..n], i);
      assert steps[..n][..i] == steps[..i];
      var was, s := BodyOfFile(Run(env, key, steps[..i]).disk), Run(env, key, steps[..n]);
      TerminatedPrefix(was, s.disk);
      StepKeepsBytes(env, key, s, steps[n]);
    }
  }
}
