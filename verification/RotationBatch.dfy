/**
 drain/file/rotate.go: one batch when no file operation fails, file by file. When it rotates, what
 each file then holds, and that it rotates no sooner.
 */
module RotationBatch {
  import opened GoBytes
  import opened Rotation
  import opened RotationRuns

  /** The bytes of a file. */
  function Text(file: File): bytes {
    if file == [] then "" else file[0] + Text(file[1..])
  }

  lemma {:induction false} TextSnoc(file: File, blob: bytes)
    ensures Text(file + [blob]) == Text(file) + blob
  {
    if file == [] {
      assert [blob][1..] == [] && [] + [blob] == [blob];
    } else {
      TextSnoc(file[1..], blob);
      assert (file + [blob])[1..] == file[1..] + [blob];
    }
  }

  lemma {:induction false} SizeIsLength(file: File)
    ensures Size(file) == |Text(file)|
  {
    if file == [] {
    } else {
      var n := |file| - 1;
      SizeIsLength(file[..n]);
      TextSnoc(file[..n], file[n]);
      assert file == file[..n] + [file[n]];
    }
  }

  /** Without a failure the backups each move one place up. */
  lemma {:induction false} ShiftExactly(disk: Disk, i: nat)
    requires i + 1 !in disk
    ensures var (shifted, ok) := Shift(disk, i, Nothing);
      && ok
      && (forall k: nat :: 1 <= k <= i ==> (k + 1 in shifted <==> k in disk) && At(shifted, k + 1) == At(disk, k))
      && 1 !in shifted
      && (forall k: nat :: k == 0 || k > i + 1 ==> (k in shifted <==> k in disk) && At(shifted, k) == At(disk, k))
    decreases i
  {
    if i == 0 {
    } else {
      var moved := Move(disk, i, i + 1);
      ShiftExactly(moved, i - 1);
      assert forall k: nat :: 1 <= k < i ==> (k in moved <==> k in disk) && At(moved, k) == At(disk, k);
    }
  }

  /** The path is empty and open; with backups each file has moved one place up and the oldest is
      gone, and without any the old file is gone. */
  lemma RotateExactly(disk: Disk, backups: int)
    requires 0 in disk
    ensures var r := Rotate(disk, backups, Nothing);
      && r.ok && r.state.f == Good && 0 in r.state.disk && At(r.state.disk, 0) == []
      && (forall k: nat :: k < backups ==> At(r.state.disk, k + 1) == At(disk, k))
      && (forall k: nat :: 0 < k && k > backups ==>
            (k in r.state.disk <==> k in disk) && At(r.state.disk, k) == At(disk, k))
  {
    if backups > 0 {
      hide Shift;
      var less := disk - {backups};
      ShiftExactly(less, backups - 1);
      var shifted := Shift(less, backups - 1, Nothing).0;
      var after := Rotate(disk, backups, Nothing).state.disk;
      assert after == Move(shifted, 0, 1)[0 := []];
      forall k: nat | k < backups
        ensures At(after, k + 1) == At(disk, k)
      {
        assert k > 0 ==> At(shifted, k + 1) == At(less, k);
      }
      forall k: nat | k > backups
        ensures (k in after <==> k in disk) && At(after, k) == At(disk, k)
      {
        assert (k in shifted <==> k in less) && At(shifted, k) == At(less, k);
      }
    }
  }

  /** The file takes the blob as long as it is empty or stays within maxSize with it, and is not
      too old. Otherwise, and only then, the files move up and the blob opens a new one. */
  lemma BatchExactly(s: State, blob: bytes, aged: bool, cfg: Config)
    requires s.f == Good && 0 in s.disk && blob != ""
    ensures var r, size := Send(s, blob, aged, cfg, Nothing), |Text(s.disk[0])|;
      && r.ok && r.state.f == Good && 0 in r.state.disk
      && ((size == 0 || size + |blob| <= cfg.maxSize) && !aged ==>
            && r.state.disk[0] == s.disk[0] + [blob]
            && r.state.disk.Keys == s.disk.Keys
            && forall k :: k in s.disk && k > 0 ==> r.state.disk[k] == s.disk[k])
      && ((size > 0 && size + |blob| > cfg.maxSize) || aged ==>
            && r.state.disk[0] == [blob]
            && (forall k: nat :: k < cfg.backups ==> At(r.state.disk, k + 1) == At(s.disk, k))
            && (forall k: nat :: 0 < k && k > cfg.backups ==> At(r.state.disk, k) == At(s.disk, k)))
  {
    hide Rotate, Text, Size;
    SizeIsLength(s.disk[0]);
    RotateExactly(s.disk, cfg.backups);
    assert [] + [blob] == [blob];
  }

  /** After a Close, as after a death, no batch writes anything until a new sender opens the path. */
  lemma ClosedWritesNothing(s: State, step: Step, blob: bytes, aged: bool, cfg: Config, fault: Fault)
    requires step == Close || step == Die
    ensures var t := Take(s, step, cfg);
      t.disk == s.disk && Send(t, blob, aged, cfg, fault) == Result(t, false)
    ensures Take(Take(s, step, cfg), Restart(Nothing), cfg).f == Good
  {
  }

  /** Over every run, with failures, deaths and restarts: when each file but one of a single blob is
      within maxSize at the start, each is at the end. */
  lemma FilesStayWithin(s: State, steps: seq<Step>, cfg: Config, k: nat)
    requires s.f == Good ==> 0 in s.disk
    requires forall j: nat :: j in s.disk && (j == 0 || j <= cfg.backups) ==>
      && (|s.disk[j]| <= 1 || |Text(s.disk[j])| <= cfg.maxSize)
      && forall i :: 0 <= i < |s.disk[j]| ==> s.disk[j][i] != ""
    requires k == 0 || k <= cfg.backups
    ensures var after := Run(s, steps, cfg).disk;
      k in after ==> |after[k]| <= 1 || |Text(after[k])| <= cfg.maxSize
  {
    hide Run, History, Kept, Text, Size;
    forall j | j in s.disk && j <= Last(cfg)
      ensures FileWithin(s.disk[j], cfg.maxSize)
    {
      SizeIsLength(s.disk[j]);
    }
    Retention(s, steps, cfg);
    var after := Run(s, steps, cfg).disk;
    if k in after {
      SizeIsLength(after[k]);
    }
  }
}
