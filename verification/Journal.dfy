/**
 audit/journal.go: the journal object over one file. Writes succeed or the process dies; the
 file is opened with O_APPEND, so every write lands at its end.
 */
module Journal {
  import opened GoBytes
  import opened Tree
  import opened Chain

  const MARKER_EVERY := 100

  // ---------------------------------------------------------------------------------------
  // splitTail
  // ---------------------------------------------------------------------------------------

  /** The length of the terminated part of data: one past the last newline, or 0. */
  function BodyLength(data: bytes): (n: nat)
    ensures n <= |data| && NoNewline(data[n..])
    ensures n > 0 ==> data[n - 1] == NEWLINE
  {
    if data == [] || data[|data| - 1] == NEWLINE then |data| else BodyLength(data[..|data| - 1])
  }

  predicate Terminated(data: bytes) {
    data == [] || data[|data| - 1] == NEWLINE
  }

  function BodyOfFile(data: bytes): (body: bytes)
    ensures Terminated(body)
  {
    data[..BodyLength(data)]
  }

  function TailOfFile(data: bytes): (tail: bytes)
    ensures NoNewline(tail)
  {
    data[BodyLength(data)..]
  }

  // ---------------------------------------------------------------------------------------
  // What each operation does to the state
  // ---------------------------------------------------------------------------------------

  /** The journal file, the .partial file beside it, and the fields of the journal object. */
  datatype State = State(disk: bytes, partial: bytes, open: bool, head: Head)

  datatype Done = Done(state: State, ok: bool)

  /** ensureOpen and resume. A tail that is a whole intact line is written again with its
      newline; any other tail moves to the .partial file. */
  function Open(env: Env, key: Key, s: State): Done {
    if s.open then Done(s, true)
    else
      var body, tail := BodyOfFile(s.disk), TailOfFile(s.disk);
      match ReplayFold(env, key, Split(NEWLINE, body))
      case None => Done(s, false)
      case Some(c) =>
        if tail == [] then Done(s.(open := true, head := c), true)
        else
          match CheckLine(env, key, tail, c.prev)
          case Intact(hash, _) =>
            Done(s.(disk := s.disk + (tail + [NEWLINE]), open := true, head := Head(c.records + 1, hash)), true)
          case Broken(_) =>
            Done(s.(disk := body, partial := s.partial + tail, open := true, head := c), true)
  }

  /** append: one sealed line, and the chain moves to its hash. */
  function Append(env: Env, key: Key, s: State, event: Object): Done {
    match SealLine(env, key, event, s.head.prev)
    case Refused => Done(s, false)
    case Sealed(line, hash) =>
      Done(s.(disk := s.disk + (line + [NEWLINE]), head := s.head.(prev := hash)), true)
  }

  /** appendMarker's event: the count and the head of the chain so far, and the key's id. */
  function MarkerEvent(env: Env, key: Key, head: Head): Object {
    var body := map["count" := Num(head.records), "head" := Str(head.prev)];
    map[MARKER := Obj(if key.Some? then body["key_id" := Str(KeyID(env, key.value))] else body)]
  }

  function AppendMarker(env: Env, key: Key, s: State): Done {
    Append(env, key, s, MarkerEvent(env, key, s.head))
  }

  /** One appended record: it counts only when its line was written. */
  function AppendRecord(env: Env, key: Key, s: State, event: Object): Done {
    var r := Append(env, key, s, event);
    if r.ok then Done(r.state.(head := Head(s.head.records + 1, r.state.head.prev)), true) else r
  }

  /** send: open, append, and a marker after every hundredth record. */
  function Send(env: Env, key: Key, s: State, event: Object): Done {
    var started := Open(env, key, s);
    if !started.ok then started
    else
      var wrote := AppendRecord(env, key, started.state, event);
      if wrote.ok && wrote.state.head.records % MARKER_EVERY == 0 then AppendMarker(env, key, wrote.state)
      else wrote
  }

  /** closeFile: a final marker unless the file holds no record. */
  function Close(env: Env, key: Key, s: State): State {
    if !s.open then s
    else
      var marked := if s.head.records > 0 then AppendMarker(env, key, s).state else s;
      marked.(open := false)
  }

  // ---------------------------------------------------------------------------------------
  // The object
  // ---------------------------------------------------------------------------------------

  class Journal {
    const env: Env
    const key: Key
    var disk: bytes
    var partial: bytes
    var isOpen: bool
    var prev: bytes
    var records: nat

    ghost function Now(): State
      reads this
    {
      State(disk, partial, isOpen, Head(records, prev))
    }

    /** Journal(path): the object a new process builds over the files it finds. */
    constructor (env: Env, key: Key, disk: bytes, partial: bytes)
      ensures this.env == env && this.key == key
      ensures Now() == State(disk, partial, false, START)
    {
      this.env, this.key := env, key;
      this.disk, this.partial := disk, partial;
      isOpen, prev, records := false, [], 0;
    }

    method EnsureOpen() returns (ok: bool)
      modifies this
      ensures Done(Now(), ok) == Open(env, key, old(Now()))
    {
      hide CheckLine, ReplayFold;
      if isOpen {
        return true;
      }
      var n := BodyLength(disk);
      var body, tail := disk[..n], disk[n..];
      var replayed := Replay(env, key, body);
      if replayed.None? {
        return false;
      }
      var c := replayed.value;
      if |tail| > 0 {
        var checked := CheckLine(env, key, tail, c.prev);
        if checked.Intact? {
          disk := disk + (tail + [NEWLINE]);
          c := Head(c.records + 1, checked.hash);
        } else {
          partial := partial + tail;
          disk := body;
        }
      }
      records, prev, isOpen := c.records, c.prev, true;
      ok := true;
    }

    method AppendLine(event: Object) returns (ok: bool)
      modifies this`disk, this`prev
      ensures Done(Now(), ok) == Append(env, key, old(Now()), event)
    {
      var sealed := Seal(env, key, event, prev);
      if sealed.Refused? {
        return false;
      }
      disk := disk + (sealed.line + [NEWLINE]);
      prev := sealed.hash;
      ok := true;
    }

    method WriteMarker() returns (ok: bool)
      modifies this`disk, this`prev
      ensures Done(Now(), ok) == AppendMarker(env, key, old(Now()))
    {
      ok := AppendLine(MarkerEvent(env, key, Head(records, prev)));
    }

    method SendEvent(event: Object) returns (ok: bool)
      modifies this
      ensures Done(Now(), ok) == Send(env, key, old(Now()), event)
    {
      hide Open, Append, AppendMarker;
      ok := EnsureOpen();
      if !ok {
        return false;
      }
      ok := AppendLine(event);
      if !ok {
        return false;
      }
      records := records + 1;
      if records % MARKER_EVERY == 0 {
        ok := WriteMarker();
      }
    }

    method CloseFile()
      modifies this
      ensures Now() == Close(env, key, old(Now()))
    {
      if !isOpen {
        return;
      }
      if records > 0 {
        var _ := WriteMarker();
      }
      isOpen := false;
    }
  }
}
