/**
 audit/journal.go: the chain fields of one journal line. A field is found by the literal
 bytes "name":" in front of it, holds 64 hex digits, and is covered by zeros when hashed.
 */
module ChainField {
  import opened GoBytes

  const HASH := "audit.hash"
  const SIGNATURE := "audit.signature"

  function Repeat(c: char, n: nat): (s: bytes)
    ensures |s| == n && forall i :: 0 <= i < n ==> s[i] == c
  {
    if n == 0 then [] else [c] + Repeat(c, n - 1)
  }

  /** chainPlaceholder: 64 zeros. */
  function Placeholder(): (s: bytes)
    ensures |s| == 64 && AllHex(s) && forall i :: 0 <= i < 64 ==> s[i] == '0'
  {
    Repeat('0', 64)
  }

  /** The literal bytes in front of a chain value. */
  function Marker(field: string): bytes {
    ['"'] + field + ['"', ':', '"']
  }

  /** What every name used as a chain field satisfies. */
  predicate FieldName(field: string) {
    field == HASH || field == SIGNATURE
  }

  /** 64 hex digits stand at off. */
  predicate HexAt(line: bytes, off: int) {
    0 <= off && off + 64 <= |line| && forall i :: off <= i < off + 64 ==> IsHex(line[i])
  }

  /** field has one readable value in line, and it starts at off. */
  ghost predicate FieldAt(line: bytes, field: string, off: int) {
    && Occurs(line, Marker(field), off - |Marker(field)|)
    && (forall p :: Occurs(line, Marker(field), p) ==> p == off - |Marker(field)|)
    && HexAt(line, off)
    && off + 64 < |line|
    && line[off + 64] == '"'
  }

  lemma FieldFits(line: bytes, field: string, off: int)
    requires FieldAt(line, field, off)
    ensures 0 <= off && off + 64 < |line| && HexAt(line, off)
  {
  }

  datatype FieldError = Missing | Duplicate | Malformed
  datatype FieldResult = Found(value: bytes, off: nat) | NotFound(error: FieldError)

  /** chainValue. */
  function ChainValue(line: bytes, field: string): (r: FieldResult)
    ensures r.Found? ==> r.off + 64 < |line| && |r.value| == 64
  {
    var marker := Marker(field);
    var first := Index(line, marker);
    if first < 0 then NotFound(Missing)
    else if Index(line[first + 1..], marker) >= 0 then NotFound(Duplicate)
    else
      var start := first + |marker|;
      if start + 64 >= |line| || line[start + 64] != '"' then NotFound(Malformed)
      else if !HexAt(line, start) then NotFound(Malformed)
      else Found(line[start..start + 64], start)
  }

  /** Whether a marker is found again after its first occurrence. */
  lemma SecondOccurrence(line: bytes, marker: bytes, first: nat)
    requires marker != [] && Occurs(line, marker, first)
    ensures Index(line[first + 1..], marker) >= 0 <==> exists p :: first < p && Occurs(line, marker, p)
  {
    var rest := line[first + 1..];
    if Index(rest, marker) >= 0 {
      assert Occurs(line, marker, first + 1 + Index(rest, marker));
    }
    forall p | first < p && Occurs(line, marker, p)
      ensures Occurs(rest, marker, p - first - 1)
    {
    }
  }

  /** A value is found exactly when the field occurs once and is well formed. */
  lemma ChainValueMeaning(line: bytes, field: string)
    ensures var r := ChainValue(line, field);
      && (r.Found? ==> FieldAt(line, field, r.off) && r.value == line[r.off..r.off + 64])
      && (forall off :: FieldAt(line, field, off) ==> r.Found? && r.off == off)
  {
    var marker := Marker(field);
    var first := Index(line, marker);
    if first >= 0 {
      SecondOccurrence(line, marker, first);
    }
  }

  /** A field written twice is never read. */
  lemma TwiceIsDuplicate(line: bytes, field: string, p: nat, q: nat)
    requires p < q && Occurs(line, Marker(field), p) && Occurs(line, Marker(field), q)
    ensures ChainValue(line, field) == NotFound(Duplicate)
  {
    var first := Index(line, Marker(field));
    SecondOccurrence(line, Marker(field), first);
  }

  /** line with the 64 bytes at off replaced by v. */
  function Patch(line: bytes, off: nat, v: bytes): (r: bytes)
    requires |v| == 64 && off + 64 <= |line|
    ensures |r| == |line|
    ensures forall i :: 0 <= i < |line| ==> r[i] == if off <= i < off + 64 then v[i - off] else line[i]
  {
    line[..off] + v + line[off + 64..]
  }

  predicate Fit(offs: seq<nat>, size: nat) {
    forall k :: 0 <= k < |offs| ==> offs[k] + 64 <= size
  }

  /** coveredBytes: the values at offs replaced by zeros. */
  function Covered(line: bytes, offs: seq<nat>): (r: bytes)
    requires Fit(offs, |line|)
    ensures |r| == |line|
  {
    if offs == [] then line
    else Patch(Covered(line, offs[..|offs| - 1]), offs[|offs| - 1], Placeholder())
  }

  /** coveredBytes as it runs: a copy, zeroed in place one value at a time. */
  method CoveredBytes(line: bytes, offs: seq<nat>) returns (cp: array<char>)
    requires Fit(offs, |line|)
    ensures fresh(cp) && cp[..] == Covered(line, offs)
  {
    cp := new char[|line|](i requires 0 <= i < |line| => line[i]);
    assert cp[..] == line;
    for k := 0 to |offs|
      invariant cp[..] == Covered(line, offs[..k])
    {
      ghost var before := cp[..];
      for i := 0 to 64
        invariant |cp[..]| == |before|
        invariant forall x :: 0 <= x < |before| ==>
          cp[x] == if offs[k] <= x < offs[k] + i then '0' else before[x]
      {
        cp[offs[k] + i] := '0';
      }
      assert offs[..k + 1][..k] == offs[..k];
      assert cp[..] == Patch(before, offs[k], Placeholder());
    }
    assert offs[..|offs|] == offs;
  }

  /** copy(line[off:off+64], v), in place. */
  method PatchInPlace(buf: array<char>, off: nat, v: bytes)
    requires |v| == 64 && off + 64 <= buf.Length
    modifies buf
    ensures buf[..] == Patch(old(buf[..]), off, v)
  {
    for i := 0 to 64
      invariant forall x :: 0 <= x < buf.Length ==>
        buf[x] == if off <= x < off + i then v[x - off] else old(buf[x])
    {
      buf[off + i] := v[i];
    }
    assert buf[..] == Patch(old(buf[..]), off, v);
  }

  // ---------------------------------------------------------------------------------------
  // Replacing hex by hex never moves, makes or breaks a field
  // ---------------------------------------------------------------------------------------

  /** Two lines that differ only inside one run of 64 hex digits. */
  ghost predicate DifferInHex(a: bytes, b: bytes, off: nat) {
    && |a| == |b| && HexAt(a, off) && HexAt(b, off)
    && forall i :: 0 <= i < |a| && !(off <= i < off + 64) ==> a[i] == b[i]
  }

  lemma MarkerShape(field: string)
    requires FieldName(field)
    ensures 14 <= |Marker(field)| <= 19
    ensures Marker(field)[0] == '"' && Marker(field)[|Marker(field)| - 1] == '"'
  {
  }

  /** An occurrence of a marker lies outside any run of 64 hex digits, since it starts and
      ends with a quote and is shorter than the run. */
  lemma MarkerAvoidsHex(line: bytes, field: string, p: int, off: nat)
    requires FieldName(field) && Occurs(line, Marker(field), p)
    requires HexAt(line, off)
    ensures p + |Marker(field)| <= off || off + 64 <= p
  {
    MarkerShape(field);
    var last := |Marker(field)| - 1;
    assert line[p + 0] == '"' && line[p + last] == '"';
  }

  lemma OccursMoves(a: bytes, b: bytes, off: nat, field: string, p: int)
    requires DifferInHex(a, b, off) && FieldName(field)
    requires Occurs(a, Marker(field), p)
    ensures Occurs(b, Marker(field), p)
  {
    MarkerAvoidsHex(a, field, p, off);
  }

  lemma FieldMoves(a: bytes, b: bytes, off: nat, field: string, at: int)
    requires DifferInHex(a, b, off) && FieldName(field)
    requires FieldAt(a, field, at)
    ensures FieldAt(b, field, at)
  {
    var m := |Marker(field)|;
    OccursMoves(a, b, off, field, at - m);
    forall p | Occurs(b, Marker(field), p)
      ensures p == at - m
    {
      OccursMoves(b, a, off, field, p);
    }
  }

  /** A field is found at the same place, or in neither line. */
  lemma SameFields(a: bytes, b: bytes, off: nat, field: string)
    requires DifferInHex(a, b, off) && FieldName(field)
    ensures ChainValue(a, field).Found? == ChainValue(b, field).Found?
    ensures ChainValue(a, field).Found? ==> ChainValue(a, field).off == ChainValue(b, field).off
  {
    var ra, rb := ChainValue(a, field), ChainValue(b, field);
    ChainValueMeaning(a, field);
    ChainValueMeaning(b, field);
    if ra.Found? {
      FieldMoves(a, b, off, field, ra.off);
    }
    if rb.Found? {
      FieldMoves(b, a, off, field, rb.off);
    }
  }

  lemma PatchDiffers(line: bytes, field: string, off: nat, v: bytes)
    requires FieldAt(line, field, off) && |v| == 64 && AllHex(v)
    ensures DifferInHex(line, Patch(line, off, v), off)
  {
    var r := Patch(line, off, v);
    assert forall i :: off <= i < off + 64 ==> r[i] == v[i - off];
  }

  /** The hash value and the signature value never overlap. */
  lemma FieldsApart(line: bytes, h: int, s: int)
    requires FieldAt(line, HASH, h) && FieldAt(line, SIGNATURE, s)
    ensures h + 64 <= s || s + 64 <= h
  {
    var mh, ms := Marker(HASH), Marker(SIGNATURE);
    assert mh[|mh| - 4] == 'h' && ms[|ms| - 4] == 'e';
    assert line[h - |mh| + (|mh| - 4)] == 'h';
    assert line[s - |ms| + (|ms| - 4)] == 'e';
    MarkerAvoidsHex(line, SIGNATURE, s - |ms|, h);
    MarkerAvoidsHex(line, HASH, h - |mh|, s);
  }
}
