/**
 drain/file/file.go and drain/file/rotate.go: one file that grows by whole batches, and its
 numbered backups. Any file operation may fail. A file is the list of the blobs written to it.
 */
module Rotation {
  import opened GoBytes

  type File = seq<bytes>

  /** File 0 is the path itself, and file k is path.k. */
  type Disk = map<nat, File>

  /** s.f: no file, a file, or one whose Close failed, which only answers with errors. */
  datatype Handle = NoFile | Good | Broken

  datatype State = State(disk: Disk, f: Handle)

  /** The file operation that fails, if one does. Rename(0) moves the path itself. */
  datatype Fault = Nothing | Stat | CloseFile | Remove | Rename(k: nat) | Open | Write(landed: nat)

  function Size(file: File): nat {
    if file == [] then 0 else Size(file[..|file| - 1]) + |file[|file| - 1]|
  }

  function At(disk: Disk, k: nat): File {
    if k in disk then disk[k] else []
  }

  datatype Result = Result(state: State, ok: bool)

  /** open, which makes the file if it is missing. */
  function OpenFile(disk: Disk, fault: Fault): Result {
    if fault == Open then Result(State(disk, NoFile), false)
    else Result(State(disk[0 := At(disk, 0)], Good), true)
  }

  /** os.Rename, with a missing source passed over. */
  function Move(disk: Disk, from: nat, to: nat): Disk {
    if from in disk then (disk - {from})[to := disk[from]] else disk
  }

  /** The backups i down to 1, each one place up, until a rename fails. */
  function Shift(disk: Disk, i: nat, fault: Fault): (Disk, bool)
    decreases i
  {
    if i == 0 then (disk, true)
    else if fault == Rename(i) then (disk, false)
    else Shift(Move(disk, i, i + 1), i - 1, fault)
  }

  /** rotate, on an open file. */
  function Rotate(disk: Disk, backups: int, fault: Fault): Result {
    if fault == CloseFile then Result(State(disk, Broken), false)
    else if fault == Remove then Result(State(disk, NoFile), false)
    else if backups <= 0 then OpenFile(disk - {0}, fault)
    else
      var (shifted, ok) := Shift(disk - {backups}, backups - 1, fault);
      if !ok || fault == Rename(0) then Result(State(shifted, NoFile), false)
      else OpenFile(Move(shifted, 0, 1), fault)
  }

  datatype Config = Config(maxSize: int, backups: int)

  predicate MustRotate(disk: Disk, incoming: nat, aged: bool, cfg: Config) {
    (Size(At(disk, 0)) > 0 && Size(At(disk, 0)) + incoming > cfg.maxSize) || aged
  }

  /** rotateIfNeeded, once the file answered Stat. */
  function RotateIfNeeded(s: State, incoming: nat, aged: bool, cfg: Config, fault: Fault): Result {
    if MustRotate(s.disk, incoming, aged, cfg) then Rotate(s.disk, cfg.backups, fault) else Result(s, true)
  }

  /** A blob reaches the file whole, or its first bytes do when the write fails. */
  function Append(disk: Disk, blob: bytes): Disk {
    if blob == "" then disk else disk[0 := At(disk, 0) + [blob]]
  }

  /** What a write that may fail leaves of a blob. */
  function Reaches(blob: bytes, fault: Fault): (part: bytes)
    ensures |part| <= |blob|
  {
    if fault.Write? && fault.landed < |blob| then blob[..fault.landed] else blob
  }

  /** SendBatch of one encoded blob. */
  function Send(s: State, blob: bytes, aged: bool, cfg: Config, fault: Fault): Result {
    if s.f == NoFile then Result(s, false)
    else if s.f == Broken || fault == Stat then Result(s, false)
    else
      var r := RotateIfNeeded(s, |blob|, aged, cfg, fault);
      if !r.ok then r
      else Result(r.state.(disk := Append(r.state.disk, Reaches(blob, fault))), !fault.Write?)
  }

  // ---------------------------------------------------------------------------------------
  // The sender
  // ---------------------------------------------------------------------------------------

  /** buf: each event's line and a newline. None where an event cannot be encoded. */
  function Blob(lines: seq<Option<bytes>>): Option<bytes> {
    if lines == [] then Some("")
    else
      var front, last := Blob(lines[..|lines| - 1]), lines[|lines| - 1];
      if front.None? || last.None? then None else Some(front.value + last.value + [NEWLINE])
  }

  class Sender {
    const cfg: Config
    var disk: Disk
    var f: Handle

    ghost function Now(): State
      reads this
    {
      State(disk, f)
    }

    /** New, over whatever earlier processes left. */
    constructor (cfg: Config, disk: Disk, fault: Fault)
      ensures this.cfg == cfg && Now() == OpenFile(disk, fault).state
    {
      this.cfg := cfg;
      this.disk := if fault == Open then disk else disk[0 := At(disk, 0)];
      this.f := if fault == Open then NoFile else Good;
    }

    method OpenPath(fault: Fault) returns (ok: bool)
      requires f == NoFile
      modifies this
      ensures Result(Now(), ok) == OpenFile(old(disk), fault)
    {
      if fault == Open {
        return false;
      }
      disk := disk[0 := At(disk, 0)];
      f := Good;
      return true;
    }

    method RotateFiles(fault: Fault) returns (ok: bool)
      requires f == Good
      modifies this
      ensures Result(Now(), ok) == Rotate(old(disk), cfg.backups, fault)
    {
      if fault == CloseFile {
        f := Broken;
        return false;
      }
      f := NoFile;
      if cfg.backups <= 0 {
        if fault == Remove {
          return false;
        }
        disk := disk - {0};
        ok := OpenPath(fault);
        return;
      }
      if fault == Remove {
        return false;
      }
      disk := disk - {cfg.backups};
      var i := cfg.backups - 1;
      while i >= 1
        invariant 0 <= i && f == NoFile
        invariant Shift(disk, i, fault) == Shift(old(disk) - {cfg.backups}, cfg.backups - 1, fault)
      {
        if fault == Rename(i) {
          return false;
        }
        disk := Move(disk, i, i + 1);
        i := i - 1;
      }
      if fault == Rename(0) {
        return false;
      }
      disk := Move(disk, 0, 1);
      ok := OpenPath(fault);
    }

    method SendBatch(lines: seq<Option<bytes>>, aged: bool, fault: Fault) returns (ok: bool)
      modifies this
      ensures lines == [] || Blob(lines).None? ==> Now() == old(Now()) && ok == (lines == [])
      ensures lines != [] && Blob(lines).Some? ==> Result(Now(), ok) == Send(old(Now()), Blob(lines).value, aged, cfg, fault)
    {
      hide Rotate, OpenFile;
      if |lines| == 0 {
        return true;
      }
      var buf: bytes := "";
      for i := 0 to |lines|
        invariant Blob(lines[..i]) == Some(buf)
      {
        assert lines[..i + 1][..i] == lines[..i];
        if lines[i].None? {
          NoBlob(lines, i);
          return false;
        }
        buf := buf + lines[i].value + [NEWLINE];
      }
      assert lines[..|lines|] == lines;
      if f == NoFile {
        return false;
      }
      if f == Broken || fault == Stat {
        return false;
      }
      if MustRotate(disk, |buf|, aged, cfg) {
        var rotated := RotateFiles(fault);
        if !rotated {
          return false;
        }
      }
      disk := Append(disk, Reaches(buf, fault));
      return !fault.Write?;
    }

    /** Whatever Sync and Close of the file answer, the sender ends without one. */
    method Close(fails: bool) returns (ok: bool)
      modifies this
      ensures Now() == State(old(disk), NoFile)
      ensures ok <==> old(f) == NoFile || (old(f) == Good && !fails)
    {
      if f == NoFile {
        return true;
      }
      ok := f == Good && !fails;
      f := NoFile;
    }
  }

  lemma {:induction false} NoBlob(lines: seq<Option<bytes>>, i: nat)
    requires i < |lines| && lines[i].None?
    ensures Blob(lines).None?
  {
    if i == |lines| - 1 {
    } else {
      NoBlob(lines[..|lines| - 1], i);
    }
  }
}
