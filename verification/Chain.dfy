/**
 audit/verify.go and the sealing half of audit/journal.go: how one line is bound to the line
 before it, and how a whole file is judged.
 */
module Chain {
  import opened GoBytes
  import opened Tree
  import opened ChainField

  /** The library functions the journal rests on. Nothing is assumed of them here; the lemmas
      that need a law ask for it. A missing key is None, as a nil []byte is in Go. */
  datatype Env = Env(
    sha: bytes -> Digest,
    hmac: (bytes, bytes) -> Digest,
    marshal: Object -> Option<bytes>,
    unmarshal: bytes -> Option<Object>)

  type Key = Option<bytes>

  const PREV_HASH := "audit.prev_hash"
  const MARKER := "audit.marker"

  function ShaHex(env: Env, x: bytes): (h: bytes)
    ensures |h| == 64 && AllHex(h)
  {
    HexEncode(env.sha(x))
  }

  function Signature(env: Env, key: bytes, hash: bytes): (s: bytes)
    ensures |s| == 64 && AllHex(s)
  {
    HexEncode(env.hmac(key, hash))
  }

  function KeyID(env: Env, key: bytes): bytes {
    ShaHex(env, key)[..16]
  }

  // ---------------------------------------------------------------------------------------
  // What the verifier reads from a decoded line
  // ---------------------------------------------------------------------------------------

  /** The three entries of a marker body that checkMarker reads. */
  datatype Body = Body(count: Option<int>, head: string, keyId: string)

  datatype View = View(prev: string, marker: Option<Body>)

  /** event[key].(string), or "" when it is missing or no string. */
  function StringAt(o: Object, key: string): string {
    if key in o && o[key].Str? then o[key].s else ""
  }

  function BodyOf(o: Object): Body {
    Body(if "count" in o && o["count"].Num? then Some(o["count"].n) else None,
         StringAt(o, "head"), StringAt(o, "key_id"))
  }

  function ViewOf(o: Object): View {
    View(StringAt(o, PREV_HASH),
         if MARKER in o && o[MARKER].Obj? then Some(BodyOf(o[MARKER].fields)) else None)
  }

  function Decode(env: Env, line: bytes): Option<View> {
    var o := env.unmarshal(line);
    if o.None? then None else Some(ViewOf(o.value))
  }

  // ---------------------------------------------------------------------------------------
  // checkLine, checkMarker
  // ---------------------------------------------------------------------------------------

  datatype LineError =
    | EmptyLine | BadHashField(error: FieldError) | HashMismatch | InvalidJson | WrongPrev
    | MissingSignature | SignatureMismatch

  datatype Line = Intact(hash: bytes, marker: Option<Body>) | Broken(error: LineError)

  /** The offsets checkLine covers: the hash, and the signature when one can be read. */
  function Offsets(line: bytes): (offs: seq<nat>)
    requires ChainValue(line, HASH).Found?
    ensures Fit(offs, |line|)
  {
    var sig := ChainValue(line, SIGNATURE);
    if sig.Found? then [ChainValue(line, HASH).off, sig.off] else [ChainValue(line, HASH).off]
  }

  function CoveredLine(line: bytes): bytes
    requires ChainValue(line, HASH).Found?
  {
    Covered(line, Offsets(line))
  }

  function CheckLine(env: Env, key: Key, line: bytes, prev: bytes): Line {
    if line == [] then Broken(EmptyLine)
    else
      var stored := ChainValue(line, HASH);
      if stored.NotFound? then Broken(BadHashField(stored.error))
      else
        var sig := ChainValue(line, SIGNATURE);
        var want := ShaHex(env, CoveredLine(line));
        if stored.value != want then Broken(HashMismatch)
        else
          var view := Decode(env, line);
          if view.None? then Broken(InvalidJson)
          else if view.value.prev != prev then Broken(WrongPrev)
          else if key.Some? && sig.NotFound? then Broken(MissingSignature)
          else if key.Some? && Signature(env, key.value, want) != sig.value then Broken(SignatureMismatch)
          else Intact(want, view.value.marker)
  }

  /** checkMarker: the marker states the count, the head and the key the chain really has. */
  predicate CheckMarker(env: Env, key: Key, body: Body, c: Head) {
    && body.count == Some(c.records)
    && body.head == c.prev
    && (key.Some? ==> body.keyId == KeyID(env, key.value))
  }

  // ---------------------------------------------------------------------------------------
  // Verify
  // ---------------------------------------------------------------------------------------

  /** What a walk over the lines carries: the records seen and the hash of the last line. */
  datatype Head = Head(records: nat, prev: bytes)

  const START := Head(0, [])

  function StepLine(env: Env, key: Key, c: Head, line: bytes): Option<Head> {
    match CheckLine(env, key, line, c.prev)
    case Broken(_) => None
    case Intact(hash, Some(body)) => if CheckMarker(env, key, body, c) then Some(Head(c.records, hash)) else None
    case Intact(hash, None) => Some(Head(c.records + 1, hash))
  }

  function Fold(env: Env, key: Key, lines: seq<bytes>): Option<Head> {
    if lines == [] then Some(START)
    else
      var c := Fold(env, key, lines[..|lines| - 1]);
      if c.None? then None else StepLine(env, key, c.value, lines[|lines| - 1])
  }

  /** The lines Verify walks: the newline that ends the last line opens no further one. */
  function LinesOf(data: bytes): seq<bytes> {
    var pieces := Split(NEWLINE, data);
    if pieces[|pieces| - 1] == [] then pieces[..|pieces| - 1] else pieces
  }

  predicate Accepts(env: Env, key: Key, data: bytes) {
    data != [] && Fold(env, key, LinesOf(data)).Some?
  }

  lemma {:induction false} FoldPrefix(env: Env, key: Key, lines: seq<bytes>, k: nat)
    requires k <= |lines| && Fold(env, key, lines).Some?
    ensures Fold(env, key, lines[..k]).Some?
  {
    if k < |lines| {
      var front := lines[..|lines| - 1];
      FoldPrefix(env, key, front, k);
      assert front[..k] == lines[..k];
    } else {
      assert lines[..k] == lines;
    }
  }

  lemma FoldNone(env: Env, key: Key)
    ensures Fold(env, key, []) == Some(START)
  {
  }

  lemma FoldSnoc(env: Env, key: Key, lines: seq<bytes>, line: bytes)
    ensures var c := Fold(env, key, lines);
      Fold(env, key, lines + [line]) == if c.None? then None else StepLine(env, key, c.value, line)
  {
    assert (lines + [line])[..|lines|] == lines;
  }

  datatype Verdict = Valid | EmptyJournal | BadLine(n: nat)

  /** Verify: names the first line that does not fit the chain. */
  method Verify(env: Env, key: Key, data: bytes) returns (v: Verdict)
    ensures v.Valid? <==> Accepts(env, key, data)
    ensures v.EmptyJournal? <==> data == []
    ensures v.BadLine? ==>
      && 1 <= v.n <= |LinesOf(data)|
      && Fold(env, key, LinesOf(data)[..v.n - 1]).Some?
      && Fold(env, key, LinesOf(data)[..v.n]).None?
  {
    FoldNone(env, key);
    hide CheckLine, Fold, CheckMarker, Split;
    if |data| == 0 {
      return EmptyJournal;
    }
    var prev, records := [], 0;
    var lines := Split(NEWLINE, data);
    if |lines| > 0 && |lines[|lines| - 1]| == 0 {
      lines := lines[..|lines| - 1];
    }
    for i := 0 to |lines|
      invariant records >= 0
      invariant Fold(env, key, lines[..i]) == Some(Head(records, prev))
    {
      FoldSnoc(env, key, lines[..i], lines[i]);
      assert lines[..i + 1] == lines[..i] + [lines[i]];
      var checked := CheckLine(env, key, lines[i], prev);
      if checked.Broken? {
        FoldBreaks(env, key, lines, i);
        return BadLine(i + 1);
      }
      if checked.marker.Some? {
        if !CheckMarker(env, key, checked.marker.value, Head(records, prev)) {
          FoldBreaks(env, key, lines, i);
          return BadLine(i + 1);
        }
      } else {
        records := records + 1;
      }
      prev := checked.hash;
    }
    assert lines[..|lines|] == lines;
    v := Valid;
  }

  lemma FoldBreaks(env: Env, key: Key, lines: seq<bytes>, i: nat)
    requires i < |lines| && Fold(env, key, lines[..i + 1]).None?
    ensures Fold(env, key, lines).None?
  {
    if Fold(env, key, lines).Some? {
      FoldPrefix(env, key, lines, i + 1);
    }
  }

  // ---------------------------------------------------------------------------------------
  // replay
  // ---------------------------------------------------------------------------------------

  /** One line of replay: an empty line is skipped and a marker's claims are not judged. */
  function ReplayLine(env: Env, key: Key, c: Head, line: bytes): Option<Head> {
    if line == [] then Some(c)
    else
      match CheckLine(env, key, line, c.prev)
      case Broken(_) => None
      case Intact(hash, marker) => Some(Head(if marker.None? then c.records + 1 else c.records, hash))
  }

  function ReplayFold(env: Env, key: Key, lines: seq<bytes>): Option<Head> {
    if lines == [] then Some(START)
    else
      var c := ReplayFold(env, key, lines[..|lines| - 1]);
      if c.None? then None else ReplayLine(env, key, c.value, lines[|lines| - 1])
  }

  lemma {:induction false} ReplayPrefix(env: Env, key: Key, lines: seq<bytes>, k: nat)
    requires k <= |lines| && ReplayFold(env, key, lines).Some?
    ensures ReplayFold(env, key, lines[..k]).Some?
  {
    if k < |lines| {
      var front := lines[..|lines| - 1];
      ReplayPrefix(env, key, front, k);
      assert front[..k] == lines[..k];
    } else {
      assert lines[..k] == lines;
    }
  }

  method Replay(env: Env, key: Key, body: bytes) returns (c: Option<Head>)
    ensures c == ReplayFold(env, key, Split(NEWLINE, body))
  {
    hide CheckLine;
    var lines := Split(NEWLINE, body);
    var records, prev := 0, [];
    for i := 0 to |lines|
      invariant records >= 0
      invariant ReplayFold(env, key, lines[..i]) == Some(Head(records, prev))
    {
      assert lines[..i + 1][..i] == lines[..i];
      if |lines[i]| != 0 {
        var checked := CheckLine(env, key, lines[i], prev);
        if checked.Broken? {
          if ReplayFold(env, key, lines).Some? {
            ReplayPrefix(env, key, lines, i + 1);
          }
          return None;
        }
        if checked.marker.None? {
          records := records + 1;
        }
        prev := checked.hash;
      }
    }
    assert lines[..|lines|] == lines;
    c := Some(Head(records, prev));
  }

  /** Recovery reads from an accepted file exactly the count and head Verify reads. */
  lemma {:induction false} ReplayAgrees(env: Env, key: Key, lines: seq<bytes>)
    requires Fold(env, key, lines).Some?
    ensures ReplayFold(env, key, lines) == Fold(env, key, lines)
  {
    if lines == [] {
    } else {
      ReplayAgrees(env, key, lines[..|lines| - 1]);
    }
  }

  // ---------------------------------------------------------------------------------------
  // seal
  // ---------------------------------------------------------------------------------------

  datatype Sealed = Sealed(line: bytes, hash: bytes) | Refused

  /** The event as it is encoded: the previous hash, and zeros where the chain values go. */
  function Chained(key: Key, event: Object, prev: bytes): Object {
    var o := event[PREV_HASH := Str(prev)][HASH := Str(Placeholder())];
    if key.Some? then o[SIGNATURE := Str(Placeholder())] else o
  }

  /** The line seal writes, without its newline. */
  function SealLine(env: Env, key: Key, event: Object, prev: bytes): Sealed {
    var encoded := env.marshal(Chained(key, event, prev));
    if encoded.None? then Refused else SealBytes(env, key, encoded.value)
  }

  function SealBytes(env: Env, key: Key, line: bytes): Sealed {
    ChainValueMeaning(line, HASH);
    ChainValueMeaning(line, SIGNATURE);
    var h := ChainValue(line, HASH);
    if h.NotFound? then Refused
    else if key.None? then
      var hash := ShaHex(env, Covered(line, [h.off]));
      Sealed(Patch(line, h.off, hash), hash)
    else
      var s := ChainValue(line, SIGNATURE);
      if s.NotFound? then Refused
      else
        var hash := ShaHex(env, Covered(line, [h.off, s.off]));
        Sealed(Patch(Patch(line, h.off, hash), s.off, Signature(env, key.value, hash)), hash)
  }

  /** seal, patching the encoded line in place. */
  method Seal(env: Env, key: Key, event: Object, prev: bytes) returns (r: Sealed)
    ensures r == SealLine(env, key, event, prev)
  {
    hide ChainValue, FieldAt, Patch, Covered, Placeholder, Chained;
    var encoded := env.marshal(Chained(key, event, prev));
    if encoded.None? {
      return Refused;
    }
    var line := encoded.value;
    var h := ChainValue(line, HASH);
    if h.NotFound? {
      return Refused;
    }
    var offsets := [h.off];
    var s := NotFound(Missing);
    if key.Some? {
      s := ChainValue(line, SIGNATURE);
      if s.NotFound? {
        return Refused;
      }
      offsets := [h.off, s.off];
    }
    var covered := CoveredBytes(line, offsets);
    var hash := ShaHex(env, covered[..]);
    var buf := new char[|line|](i requires 0 <= i < |line| => line[i]);
    assert buf[..] == line;
    PatchInPlace(buf, h.off, hash);
    if s.Found? {
      PatchInPlace(buf, s.off, Signature(env, key.value, hash));
    }
    r := Sealed(buf[..], hash);
  }
}
