/**
 What the files hold after any run of batches, failures, closes, deaths and restarts: the last
 of everything that was written, in order.
 */
module RotationRuns {
  import opened GoBytes
  import opened Rotation

  /** The files hi down to lo, the oldest first. */
  function Kept(disk: Disk, hi: int, lo: nat): seq<bytes>
    decreases hi + 1 - lo
  {
    if hi < lo then [] else At(disk, hi) + Kept(disk, hi - 1, lo)
  }

  function Last(cfg: Config): nat {
    if cfg.backups <= 0 then 0 else cfg.backups
  }

  lemma {:induction false} KeptCongruent(a: Disk, b: Disk, hi: int, lo: nat)
    requires forall k: nat :: lo <= k <= hi ==> At(a, k) == At(b, k)
    ensures Kept(a, hi, lo) == Kept(b, hi, lo)
    decreases hi + 1 - lo
  {
    if hi < lo {
    } else {
      KeptCongruent(a, b, hi - 1, lo);
    }
  }

  lemma {:induction false} KeptSplit(disk: Disk, hi: int, lo: nat)
    requires hi >= lo
    ensures Kept(disk, hi, lo) == Kept(disk, hi, lo + 1) + At(disk, lo)
    decreases hi + 1 - lo
  {
    if hi == lo {
      assert Kept(disk, hi - 1, lo) == [];
      assert At(disk, lo) + [] == At(disk, lo);
    } else {
      KeptSplit(disk, hi - 1, lo);
    }
  }

  /** The renames lose nothing, overwrite nothing and keep the order, however far they get. */
  lemma {:induction false} ShiftKeeps(disk: Disk, i: nat, fault: Fault)
    requires i + 1 !in disk
    ensures Kept(Shift(disk, i, fault).0, i + 1, 1) == Kept(disk, i, 1)
    ensures forall k: nat :: k == 0 || k > i + 1 ==> At(Shift(disk, i, fault).0, k) == At(disk, k)
    ensures Shift(disk, i, fault).1 ==> 1 !in Shift(disk, i, fault).0
    ensures forall k :: k in Shift(disk, i, fault).0 ==> k in disk || k <= i + 1
    decreases i
  {
    if i == 0 {
      assert Kept(disk, 1, 1) == At(disk, 1) + Kept(disk, 0, 1);
    } else if fault == Rename(i) {
    } else {
      var moved := Move(disk, i, i + 1);
      ShiftKeeps(moved, i - 1, fault);
      KeptCongruent(moved, disk, i - 1, 1);
    }
  }

  lemma ShiftAll(disk: Disk, n: nat, fault: Fault)
    requires n >= 1
    ensures Kept(Shift(disk - {n}, n - 1, fault).0, n, 0) == Kept(disk, n - 1, 0)
    ensures Shift(disk - {n}, n - 1, fault).1 ==> 1 !in Shift(disk - {n}, n - 1, fault).0
  {
    hide Shift, Kept;
    var less := disk - {n};
    var shifted := Shift(less, n - 1, fault).0;
    ShiftKeeps(less, n - 1, fault);
    KeptSplit(shifted, n, 0);
    KeptSplit(less, n - 1, 0);
    KeptCongruent(less, disk, n - 1, 0);
    assert At(shifted, 0) == At(less, 0);
  }

  lemma KeptTop(disk: Disk, n: nat)
    ensures Kept(disk, n, 0) == At(disk, n) + Kept(disk, n - 1, 0)
    ensures n == 0 ==> Kept(disk, n, 0) == At(disk, 0)
  {
    assert n == 0 ==> Kept(disk, n - 1, 0) == [] && At(disk, n) + [] == At(disk, n);
  }

  lemma OpenKeeps(disk: Disk, fault: Fault, n: nat)
    ensures Kept(OpenFile(disk, fault).state.disk, n, 0) == Kept(disk, n, 0)
  {
    KeptCongruent(OpenFile(disk, fault).state.disk, disk, n, 0);
  }

  /** What one rotation, failed or not, does to what is kept: it loses the oldest backup, or
      nothing. */
  lemma RotateKeeps(disk: Disk, cfg: Config, fault: Fault)
    ensures
      || Kept(Rotate(disk, cfg.backups, fault).state.disk, Last(cfg), 0) == Kept(disk, Last(cfg), 0)
      || Kept(disk, Last(cfg), 0) == At(disk, Last(cfg)) + Kept(Rotate(disk, cfg.backups, fault).state.disk, Last(cfg), 0)
  {
    hide Shift, Kept, OpenFile;
    var n := Last(cfg);
    KeptTop(disk, n);
    if fault == CloseFile || fault == Remove {
    } else if cfg.backups <= 0 {
      OpenKeeps(disk - {0}, fault, 0);
      KeptTop(disk - {0}, 0);
    } else {
      ShiftAll(disk, n, fault);
      var (shifted, ok) := Shift(disk - {n}, n - 1, fault);
      if ok && fault != Rename(0) {
        MoveFirst(shifted, n);
        OpenKeeps(Move(shifted, 0, 1), fault, n);
      }
    }
  }

  lemma MoveFirst(disk: Disk, n: nat)
    requires n >= 1 && 1 !in disk
    ensures Kept(Move(disk, 0, 1), n, 0) == Kept(disk, n, 0)
  {
    var moved := Move(disk, 0, 1);
    KeptSplit(moved, n, 0);
    KeptSplit(moved, n, 1);
    KeptSplit(disk, n, 0);
    KeptSplit(disk, n, 1);
    KeptCongruent(moved, disk, n, 2);
  }

  // ---------------------------------------------------------------------------------------
  // Runs
  // ---------------------------------------------------------------------------------------

  /** A batch, the caller's Close, a death of the process, and a new sender on the same path. */
  datatype Step = Batch(blob: bytes, aged: bool, fault: Fault) | Close | Die | Restart(fault: Fault)

  function Take(s: State, step: Step, cfg: Config): State {
    match step
    case Batch(blob, aged, fault) => if blob == "" then s else Send(s, blob, aged, cfg, fault).state
    case Close => s.(f := NoFile)
    case Die => s.(f := NoFile)
    case Restart(fault) => OpenFile(s.disk, fault).state
  }

  function AsList(part: bytes): seq<bytes> {
    if part == "" then [] else [part]
  }

  /** The bytes a step puts into the file: all of a blob, the first of them, or none. */
  function Landed(s: State, step: Step, cfg: Config): seq<bytes> {
    if !step.Batch? || step.blob == "" || s.f != Good || step.fault == Stat then []
    else if !RotateIfNeeded(s, |step.blob|, step.aged, cfg, step.fault).ok then []
    else AsList(Reaches(step.blob, step.fault))
  }

  function Run(s: State, steps: seq<Step>, cfg: Config): State {
    if steps == [] then s else Take(Run(s, steps[..|steps| - 1], cfg), steps[|steps| - 1], cfg)
  }

  function History(s: State, steps: seq<Step>, cfg: Config): seq<bytes> {
    if steps == [] then []
    else
      var front := steps[..|steps| - 1];
      History(s, front, cfg) + Landed(Run(s, front, cfg), steps[|steps| - 1], cfg)
  }

  ghost predicate IsSuffix(s: seq<bytes>, t: seq<bytes>) {
    |s| <= |t| && t[|t| - |s|..] == s
  }

  /** A file within the size limit, or of one blob. An empty write leaves no blob. */
  predicate FileWithin(file: File, max: int) {
    (|file| <= 1 || Size(file) <= max) && forall i :: 0 <= i < |file| ==> file[i] != ""
  }

  predicate Within(disk: Disk, cfg: Config) {
    forall k: nat :: k in disk && k <= Last(cfg) ==> FileWithin(disk[k], cfg.maxSize)
  }

  predicate Inv(s: State, cfg: Config) {
    (s.f == Good ==> 0 in s.disk) && Within(s.disk, cfg)
  }

  /** Of what was kept and what has landed since, the oldest part goes. */
  ghost predicate Follows(before: seq<bytes>, landed: seq<bytes>, after: seq<bytes>) {
    IsSuffix(after, before + landed)
  }

  lemma SuffixCut(lost: seq<bytes>, rest: seq<bytes>)
    ensures IsSuffix(rest, lost + rest) && IsSuffix(rest, rest)
  {
  }

  lemma SuffixGrows(s: seq<bytes>, t: seq<bytes>, more: seq<bytes>)
    requires IsSuffix(s, t)
    ensures IsSuffix(s + more, t + more)
  {
  }

  lemma SuffixChain(a: seq<bytes>, b: seq<bytes>, c: seq<bytes>)
    requires IsSuffix(a, b) && IsSuffix(b, c)
    ensures IsSuffix(a, c)
  {
    assert a == c[|c| - |b|..][|b| - |a|..];
  }

  lemma AppendKept(disk: Disk, blob: bytes, n: nat)
    ensures Kept(Append(disk, blob), n, 0) == Kept(disk, n, 0) + AsList(blob)
  {
    hide Kept;
    if blob == "" {
      assert Kept(disk, n, 0) + [] == Kept(disk, n, 0);
    } else {
      var after := Append(disk, blob);
      KeptSplit(after, n, 0);
      KeptSplit(disk, n, 0);
      KeptCongruent(after, disk, n, 1);
    }
  }

  lemma RotateLeaves(disk: Disk, cfg: Config, fault: Fault)
    ensures IsSuffix(Kept(Rotate(disk, cfg.backups, fault).state.disk, Last(cfg), 0), Kept(disk, Last(cfg), 0))
  {
    hide Rotate, Kept;
    RotateKeeps(disk, cfg, fault);
    SuffixCut(At(disk, Last(cfg)), Kept(Rotate(disk, cfg.backups, fault).state.disk, Last(cfg), 0));
  }

  lemma StepFollows(s: State, step: Step, cfg: Config)
    ensures Follows(Kept(s.disk, Last(cfg), 0), Landed(s, step, cfg), Kept(Take(s, step, cfg).disk, Last(cfg), 0))
  {
    hide Kept, RotateIfNeeded, OpenFile, Append, Reaches, AsList, IsSuffix;
    var n, was := Last(cfg), Kept(s.disk, Last(cfg), 0);
    assert was + [] == was;
    SuffixCut([], was);
    match step
    case Close =>
    case Die =>
    case Restart(fault) => OpenKeeps(s.disk, fault, n);
    case Batch(blob, aged, fault) =>
      if blob != "" && s.f == Good && fault != Stat {
        BatchFollows(s, blob, aged, fault, cfg);
      }
  }

  lemma BatchFollows(s: State, blob: bytes, aged: bool, fault: Fault, cfg: Config)
    requires blob != "" && s.f == Good && fault != Stat
    ensures Follows(Kept(s.disk, Last(cfg), 0), Landed(s, Batch(blob, aged, fault), cfg),
                    Kept(Send(s, blob, aged, cfg, fault).state.disk, Last(cfg), 0))
  {
    hide Kept, RotateIfNeeded, Append, Reaches, AsList, IsSuffix, Send, Landed;
    var n, was := Last(cfg), Kept(s.disk, Last(cfg), 0);
    assert was + [] == was;
    BatchShape(s, blob, aged, fault, cfg);
    ReadyLeaves(s, |blob|, aged, cfg, fault);
    var mid := RotateIfNeeded(s, |blob|, aged, cfg, fault);
    if mid.ok {
      AppendKept(mid.state.disk, Reaches(blob, fault), n);
      SuffixGrows(Kept(mid.state.disk, n, 0), was, AsList(Reaches(blob, fault)));
    }
  }

  lemma BatchShape(s: State, blob: bytes, aged: bool, fault: Fault, cfg: Config)
    requires blob != "" && s.f == Good && fault != Stat
    ensures var mid := RotateIfNeeded(s, |blob|, aged, cfg, fault);
      && Send(s, blob, aged, cfg, fault).state.disk == (if mid.ok then Append(mid.state.disk, Reaches(blob, fault)) else mid.state.disk)
      && Landed(s, Batch(blob, aged, fault), cfg) == (if mid.ok then AsList(Reaches(blob, fault)) else [])
  {
    hide RotateIfNeeded, Append, Reaches, AsList;
  }

  lemma ReadyLeaves(s: State, incoming: nat, aged: bool, cfg: Config, fault: Fault)
    ensures IsSuffix(Kept(RotateIfNeeded(s, incoming, aged, cfg, fault).state.disk, Last(cfg), 0), Kept(s.disk, Last(cfg), 0))
  {
    hide Kept, Rotate, MustRotate, IsSuffix;
    RotateLeaves(s.disk, cfg, fault);
    SuffixCut([], Kept(s.disk, Last(cfg), 0));
  }

  // ---------------------------------------------------------------------------------------
  // The invariant
  // ---------------------------------------------------------------------------------------

  lemma {:induction false} ShiftWithin(disk: Disk, i: nat, fault: Fault, cfg: Config)
    requires Within(disk, cfg) && i + 1 <= Last(cfg)
    ensures Within(Shift(disk, i, fault).0, cfg)
    decreases i
  {
    if i == 0 || fault == Rename(i) {
    } else {
      ShiftWithin(Move(disk, i, i + 1), i - 1, fault, cfg);
    }
  }

  /** A rotation succeeds exactly when it leaves an open file, and that file is empty. */
  lemma RotateInv(disk: Disk, cfg: Config, fault: Fault)
    requires Within(disk, cfg) && 0 in disk
    ensures Within(Rotate(disk, cfg.backups, fault).state.disk, cfg)
    ensures Rotate(disk, cfg.backups, fault).ok <==> Rotate(disk, cfg.backups, fault).state.f == Good
    ensures Rotate(disk, cfg.backups, fault).ok ==>
      0 in Rotate(disk, cfg.backups, fault).state.disk && Rotate(disk, cfg.backups, fault).state.disk[0] == []
  {
    hide Shift;
    if cfg.backups > 0 {
      ShiftWithin(disk - {cfg.backups}, cfg.backups - 1, fault, cfg);
      ShiftMain(disk - {cfg.backups}, cfg.backups - 1, fault);
    }
  }

  lemma {:induction false} ShiftMain(disk: Disk, i: nat, fault: Fault)
    requires 0 in disk
    ensures 0 in Shift(disk, i, fault).0
    decreases i
  {
    if i == 0 || fault == Rename(i) {
    } else {
      ShiftMain(Move(disk, i, i + 1), i - 1, fault);
    }
  }

  lemma AppendWithin(disk: Disk, incoming: nat, aged: bool, part: bytes, cfg: Config)
    requires Within(disk, cfg) && (At(disk, 0) == [] || !MustRotate(disk, incoming, aged, cfg)) && |part| <= incoming
    ensures Within(Append(disk, part), cfg)
  {
    var file := At(disk, 0);
    assert FileWithin(file, cfg.maxSize);
    if part != "" {
      assert (file + [part])[..|file|] == file;
      if file != [] {
        assert file[|file| - 1] != "";
      }
      assert FileWithin(file + [part], cfg.maxSize);
    }
  }

  lemma StepInv(s: State, step: Step, cfg: Config)
    requires Inv(s, cfg)
    ensures Inv(Take(s, step, cfg), cfg)
  {
    hide Rotate, MustRotate, Append, FileWithin;
    match step
    case Close =>
    case Die =>
    case Restart(fault) =>
      OpenWithin(s.disk, fault, cfg);
    case Batch(blob, aged, fault) =>
      if blob != "" && s.f == Good && fault != Stat {
        RotateInv(s.disk, cfg, fault);
        var mid := RotateIfNeeded(s, |blob|, aged, cfg, fault);
        if mid.ok {
          AppendWithin(mid.state.disk, |blob|, aged, Reaches(blob, fault), cfg);
          AppendHasMain(mid.state.disk, Reaches(blob, fault));
        }
      }
  }

  lemma OpenWithin(disk: Disk, fault: Fault, cfg: Config)
    requires Within(disk, cfg)
    ensures Within(OpenFile(disk, fault).state.disk, cfg)
  {
  }

  lemma AppendHasMain(disk: Disk, part: bytes)
    requires 0 in disk
    ensures 0 in Append(disk, part)
  {
  }

  /** From any files a sender may find, over any run: what the files hold, oldest backup first,
      is the last part of what they held at the start and of everything written since, whole
      blobs in order. No file is over the limit unless it is one blob. */
  lemma {:induction false} Retention(s: State, steps: seq<Step>, cfg: Config)
    requires Inv(s, cfg)
    ensures Follows(Kept(s.disk, Last(cfg), 0), History(s, steps, cfg), Kept(Run(s, steps, cfg).disk, Last(cfg), 0))
    ensures Inv(Run(s, steps, cfg), cfg)
  {
    hide Kept, Take, Landed, Inv, IsSuffix;
    var was := Kept(s.disk, Last(cfg), 0);
    if steps == [] {
      assert was + [] == was;
      SuffixCut([], was);
    } else {
      var front, step := steps[..|steps| - 1], steps[|steps| - 1];
      var mid := Run(s, front, cfg);
      Retention(s, front, cfg);
      StepFollows(mid, step, cfg);
      StepInv(mid, step, cfg);
      var more := Landed(mid, step, cfg);
      SuffixGrows(Kept(mid.disk, Last(cfg), 0), was + History(s, front, cfg), more);
      assert was + History(s, front, cfg) + more == was + History(s, steps, cfg);
      SuffixChain(Kept(Take(mid, step, cfg).disk, Last(cfg), 0), Kept(mid.disk, Last(cfg), 0) + more, was + History(s, steps, cfg));
    }
  }

  // ---------------------------------------------------------------------------------------
  // How many files, and a sender that lost its file
  // ---------------------------------------------------------------------------------------

  lemma {:induction false} ShiftFiles(disk: Disk, i: nat, fault: Fault)
    ensures forall k :: k in Shift(disk, i, fault).0 ==> k in disk || k <= i + 1
    decreases i
  {
    if i == 0 || fault == Rename(i) {
    } else {
      ShiftFiles(Move(disk, i, i + 1), i - 1, fault);
    }
  }

  lemma StepFiles(s: State, step: Step, cfg: Config)
    ensures forall k :: k in Take(s, step, cfg).disk ==> k in s.disk || k <= Last(cfg)
  {
    hide Shift, MustRotate, Reaches;
    if cfg.backups > 0 && step.Batch? {
      ShiftFiles(s.disk - {cfg.backups}, cfg.backups - 1, step.fault);
    }
  }

  /** No run makes a file beyond path.N, so from a fresh path there are at most N + 1. */
  lemma {:induction false} FilesBounded(s: State, steps: seq<Step>, cfg: Config)
    ensures forall k :: k in Run(s, steps, cfg).disk ==> k in s.disk || k <= Last(cfg)
  {
    hide Take;
    if steps == [] {
    } else {
      FilesBounded(s, steps[..|steps| - 1], cfg);
      StepFiles(Run(s, steps[..|steps| - 1], cfg), steps[|steps| - 1], cfg);
    }
  }

  predicate OnlyBatches(steps: seq<Step>) {
    forall i :: 0 <= i < |steps| ==> steps[i].Batch?
  }

  /** A rotation that fails is the sender's last act: it holds no file after it, no later batch
      writes or opens anything, and only a new sender on the path does. */
  lemma {:induction false} FailedRotationIsFinal(s: State, steps: seq<Step>, cfg: Config)
    requires s.f != Good && OnlyBatches(steps)
    ensures Run(s, steps, cfg) == s && History(s, steps, cfg) == []
  {
    if steps == [] {
    } else {
      FailedRotationIsFinal(s, steps[..|steps| - 1], cfg);
    }
  }

  /** The file operation of a rotation that fails, if one does. */
  predicate FailsRotation(fault: Fault, cfg: Config) {
    fault == CloseFile || fault == Remove || fault == Open || (fault.Rename? && fault.k < cfg.backups)
  }

  lemma {:induction false} ShiftFails(disk: Disk, i: nat, fault: Fault)
    ensures Shift(disk, i, fault).1 <==> !(fault.Rename? && 1 <= fault.k <= i)
    decreases i
  {
    if i == 0 || fault == Rename(i) {
    } else {
      ShiftFails(Move(disk, i, i + 1), i - 1, fault);
    }
  }

  lemma RotateFails(disk: Disk, cfg: Config, fault: Fault)
    ensures Rotate(disk, cfg.backups, fault).ok <==> !FailsRotation(fault, cfg)
  {
    hide Shift;
    if cfg.backups > 0 {
      ShiftFails(disk - {cfg.backups}, cfg.backups - 1, fault);
    }
  }

  /** A batch leaves the sender without a file exactly when it must rotate, and closing the file,
      removing the oldest, one of the renames or opening the new one fails. */
  lemma LosesFile(s: State, blob: bytes, aged: bool, cfg: Config, fault: Fault)
    requires s.f == Good && Inv(s, cfg)
    ensures Send(s, blob, aged, cfg, fault).state.f != Good <==>
      MustRotate(s.disk, |blob|, aged, cfg) && FailsRotation(fault, cfg)
  {
    hide Rotate, MustRotate;
    RotateInv(s.disk, cfg, fault);
    RotateFails(s.disk, cfg, fault);
  }

  // ---------------------------------------------------------------------------------------
  // Torn lines
  // ---------------------------------------------------------------------------------------

  /** The bytes a step put into the file end in the middle of a line. */
  predicate Torn(landed: seq<bytes>) {
    exists k :: 0 <= k < |landed| && !EndsLine(landed[k])
  }

  predicate EndsLine(blob: bytes) {
    blob != "" && blob[|blob| - 1] == NEWLINE
  }

  lemma {:induction false} BlobEndsLine(lines: seq<Option<bytes>>)
    requires lines != [] && Blob(lines).Some?
    ensures Blob(lines).value != "" && Blob(lines).value[|Blob(lines).value| - 1] == NEWLINE
  {
  }

  /** A batch leaves a torn line exactly when its bytes reach the file and the write fails inside
      a line. */
  lemma TornExactly(s: State, lines: seq<Option<bytes>>, aged: bool, cfg: Config, fault: Fault)
    requires s.f == Good && Inv(s, cfg) && lines != [] && Blob(lines).Some?
    ensures var blob := Blob(lines).value;
      Torn(Landed(s, Batch(blob, aged, fault), cfg)) <==>
        fault.Write? && 0 < fault.landed < |blob| && blob[fault.landed - 1] != NEWLINE
  {
    hide Rotate, MustRotate, Blob, Torn, AsList;
    BlobEndsLine(lines);
    RotateFails(s.disk, cfg, fault);
    TornOne(Reaches(Blob(lines).value, fault));
    TornConcat([], []);
  }

  lemma TornOne(part: bytes)
    ensures Torn(AsList(part)) <==> part != "" && part[|part| - 1] != NEWLINE
  {
    if part != "" {
      assert [part][0] == part;
    }
  }

  /** And the next batch continues that line, unless it rotates: the part and the new bytes end
      the file side by side, with no newline between them. */
  lemma TornContinues(s: State, blob: bytes, aged: bool, fault: Fault, next: bytes, nextAged: bool, later: Fault, cfg: Config)
    requires s.f == Good && Inv(s, cfg) && Torn(Landed(s, Batch(blob, aged, fault), cfg))
    requires next != "" && later != Stat && Reaches(next, later) != ""
    ensures var t := Take(s, Batch(blob, aged, fault), cfg);
      var file := At(Take(t, Batch(next, nextAged, later), cfg).disk, 0);
      && t.f == Good && Reaches(blob, fault) != "" && Reaches(blob, fault)[|Reaches(blob, fault)| - 1] != NEWLINE
      && (!MustRotate(t.disk, |next|, nextAged, cfg) ==>
            |file| >= 2 && file[|file| - 2..] == [Reaches(blob, fault), Reaches(next, later)])
  {
  }

  /** Whether a step of the run tears a line. */
  ghost predicate Tears(s: State, steps: seq<Step>, cfg: Config) {
    exists i :: 0 <= i < |steps| && Torn(Landed(Run(s, steps[..i], cfg), steps[i], cfg))
  }

  lemma TearsSnoc(s: State, front: seq<Step>, step: Step, cfg: Config)
    ensures Tears(s, front + [step], cfg) <==> Tears(s, front, cfg) || Torn(Landed(Run(s, front, cfg), step, cfg))
  {
    hide Landed, Run, Torn;
    var steps, n := front + [step], |front|;
    assert steps[..n] == front && steps[n] == step;
    assert forall i :: 0 <= i < n ==> front[..i] == steps[..i] && front[i] == steps[i];
    if i :| 0 <= i < n && Torn(Landed(Run(s, front[..i], cfg), front[i], cfg)) {
      assert Torn(Landed(Run(s, steps[..i], cfg), steps[i], cfg));
    }
    if i :| 0 <= i <= n && Torn(Landed(Run(s, steps[..i], cfg), steps[i], cfg)) && i < n {
      assert Torn(Landed(Run(s, front[..i], cfg), front[i], cfg));
    }
  }

  /** Everything written since is whole lines exactly when no step tears one. */
  lemma {:induction false} HistoryTorn(s: State, steps: seq<Step>, cfg: Config)
    ensures Torn(History(s, steps, cfg)) <==> Tears(s, steps, cfg)
  {
    hide Landed, Run, EndsLine, Torn, Tears;
    if steps == [] {
      TornConcat([], []);
      NoTears(s, cfg);
    } else {
      var front, step := steps[..|steps| - 1], steps[|steps| - 1];
      HistoryTorn(s, front, cfg);
      TearsSnoc(s, front, step, cfg);
      assert steps == front + [step];
      TornConcat(History(s, front, cfg), Landed(Run(s, front, cfg), step, cfg));
    }
  }

  lemma NoTears(s: State, cfg: Config)
    ensures !Tears(s, [], cfg)
  {
  }

  lemma TornConcat(a: seq<bytes>, b: seq<bytes>)
    ensures Torn(a + b) <==> Torn(a) || Torn(b)
    ensures !Torn([])
  {
    if k :| 0 <= k < |b| && !EndsLine(b[k]) {
      assert (a + b)[|a| + k] == b[k];
    }
    if k :| 0 <= k < |a| && !EndsLine(a[k]) {
      assert (a + b)[k] == a[k];
    }
  }

  /** So the files hold whole lines after every run without a torn write, when they did before. */
  lemma WholeLines(s: State, steps: seq<Step>, cfg: Config)
    requires Inv(s, cfg) && !Torn(Kept(s.disk, Last(cfg), 0)) && !Tears(s, steps, cfg)
    ensures !Torn(Kept(Run(s, steps, cfg).disk, Last(cfg), 0))
  {
    hide Kept, Run, History, Tears, EndsLine;
    Retention(s, steps, cfg);
    HistoryTorn(s, steps, cfg);
    var was, more := Kept(s.disk, Last(cfg), 0), History(s, steps, cfg);
    TornConcat(was, more);
    var now := Kept(Run(s, steps, cfg).disk, Last(cfg), 0);
    var cut := |was + more| - |now|;
    assert was + more == (was + more)[..cut] + now;
    TornConcat((was + more)[..cut], now);
  }
}
