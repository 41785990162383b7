/**
 audit/verify.go, VerifyHead: one head names one file. Two files accepted under the same key
 and head hold the same bytes, unless SHA-256 collides on two lines they hold.
 */
module HeadUnique {
  import opened GoBytes
  import opened ChainField
  import opened Chain

  /** SHA-256 tells these two byte strings apart. Asked only of strings two given files hold,
      because no function from all byte strings to 32 bytes is injective. */
  ghost predicate NoCollision(env: Env, x: bytes, y: bytes) {
    env.sha(x) == env.sha(y) ==> x == y
  }

  /** Decoding does not look at the hex digits of a chain value: swapping them for other hex
      digits leaves the previous hash and the marker body as they were. */
  ghost predicate HexBlind(env: Env) {
    forall line, field, off: nat, v {:trigger Decode(env, Patch(line, off, v)), FieldAt(line, field, off)} ::
      FieldName(field) && FieldAt(line, field, off) && |v| == 64 && AllHex(v)
      ==> Decode(env, Patch(line, off, v)) == Decode(env, line)
  }

  // ---------------------------------------------------------------------------------------
  // The covered bytes of a line fix where its chain values are
  // ---------------------------------------------------------------------------------------

  lemma PatchKeepsField(line: bytes, f: string, off: nat, v: bytes, g: string)
    requires FieldName(f) && FieldName(g) && FieldAt(line, f, off) && |v| == 64 && AllHex(v)
    ensures ChainValue(line, g).Found? == ChainValue(Patch(line, off, v), g).Found?
    ensures ChainValue(line, g).Found? ==> ChainValue(line, g).off == ChainValue(Patch(line, off, v), g).off
    ensures FieldAt(Patch(line, off, v), f, off)
  {
    hide ChainValue;
    PatchDiffers(line, f, off, v);
    SameFields(line, Patch(line, off, v), off, g);
    FieldMoves(line, Patch(line, off, v), off, f, off);
  }

  lemma CoveredCases(line: bytes)
    requires ChainValue(line, HASH).Found?
    ensures var h, s := ChainValue(line, HASH), ChainValue(line, SIGNATURE);
      && FieldAt(line, HASH, h.off)
      && (s.NotFound? ==> CoveredLine(line) == Patch(line, h.off, Placeholder()))
      && (s.Found? ==>
            && FieldAt(line, SIGNATURE, s.off)
            && CoveredLine(line) == Patch(Patch(line, h.off, Placeholder()), s.off, Placeholder()))
  {
    hide ChainValue;
    ChainValueMeaning(line, HASH);
    ChainValueMeaning(line, SIGNATURE);
    CoverOne(line, ChainValue(line, HASH).off);
    if ChainValue(line, SIGNATURE).Found? {
      CoverTwo(line, ChainValue(line, HASH).off, ChainValue(line, SIGNATURE).off);
    }
  }

  lemma CoverOne(line: bytes, a: nat)
    requires a + 64 <= |line|
    ensures Covered(line, [a]) == Patch(line, a, Placeholder())
  {
    assert [a][..0] == [];
    assert Covered(line, []) == line;
  }

  lemma CoverTwo(line: bytes, a: nat, b: nat)
    requires a + 64 <= |line| && b + 64 <= |line|
    ensures Covered(line, [a, b]) == Patch(Patch(line, a, Placeholder()), b, Placeholder())
  {
    CoverOne(line, a);
    assert [a, b][..1] == [a];
  }

  lemma CoveredKeepsFields(line: bytes, f: string)
    requires ChainValue(line, HASH).Found? && FieldName(f)
    ensures ChainValue(line, f).Found? == ChainValue(CoveredLine(line), f).Found?
    ensures ChainValue(line, f).Found? ==> ChainValue(line, f).off == ChainValue(CoveredLine(line), f).off
  {
    hide ChainValue, CoveredLine;
    CoveredCases(line);
    var h, s := ChainValue(line, HASH), ChainValue(line, SIGNATURE);
    var once := Patch(line, h.off, Placeholder());
    PatchKeepsField(line, HASH, h.off, Placeholder(), f);
    if s.Found? {
      PatchDiffers(line, HASH, h.off, Placeholder());
      FieldMoves(line, once, h.off, SIGNATURE, s.off);
      PatchKeepsField(once, SIGNATURE, s.off, Placeholder(), f);
    }
  }

  // ---------------------------------------------------------------------------------------
  // One line
  // ---------------------------------------------------------------------------------------

  /** line with its signature value zeroed, which is all an unkeyed reader can vouch for. */
  function Unsigned(line: bytes): bytes {
    var s := ChainValue(line, SIGNATURE);
    if s.Found? then Patch(line, s.off, Placeholder()) else line
  }

  lemma IntactFacts(env: Env, key: Key, line: bytes, prev: bytes)
    requires CheckLine(env, key, line, prev).Intact?
    ensures var h, s := ChainValue(line, HASH), ChainValue(line, SIGNATURE);
      && h.Found?
      && h.value == ShaHex(env, CoveredLine(line)) == CheckLine(env, key, line, prev).hash
      && Decode(env, line).Some? && Decode(env, line).value.prev == prev
      && (key.Some? ==> s.Found? && s.value == Signature(env, key.value, h.value))
  {
  }

  predicate InSignature(line: bytes, i: int) {
    var s := ChainValue(line, SIGNATURE);
    s.Found? && s.off <= i < s.off + 64
  }

  lemma UnsignedAt(line: bytes, i: nat)
    requires i < |line|
    ensures |Unsigned(line)| == |line|
    ensures Unsigned(line)[i] == if InSignature(line, i) then '0' else line[i]
  {
    ChainValueMeaning(line, SIGNATURE);
  }

  lemma UncoverAt(line: bytes, i: nat)
    requires i < |line| && ChainValue(line, HASH).Found?
    ensures var h := ChainValue(line, HASH);
      && |CoveredLine(line)| == |line| && h.off + 64 <= |line| && |h.value| == 64
      && (InSignature(line, i) ==> !(h.off <= i < h.off + 64))
      && (h.off <= i < h.off + 64 ==> line[i] == h.value[i - h.off])
      && (!(h.off <= i < h.off + 64) && !InSignature(line, i) ==> line[i] == CoveredLine(line)[i])
  {
    hide ChainValue, CoveredLine;
    CoveredCases(line);
    ChainValueMeaning(line, HASH);
    if ChainValue(line, SIGNATURE).Found? {
      FieldsApart(line, ChainValue(line, HASH).off, ChainValue(line, SIGNATURE).off);
    }
  }

  /** The covered bytes and the hash value give back every byte but the signature's. */
  lemma UncoverLine(a: bytes, b: bytes)
    requires ChainValue(a, HASH).Found? && ChainValue(b, HASH).Found?
    requires CoveredLine(a) == CoveredLine(b) && ChainValue(a, HASH).value == ChainValue(b, HASH).value
    ensures |a| == |b|
    ensures ChainValue(a, SIGNATURE).Found? == ChainValue(b, SIGNATURE).Found?
    ensures ChainValue(a, SIGNATURE).Found? ==> ChainValue(a, SIGNATURE).off == ChainValue(b, SIGNATURE).off
    ensures forall i :: 0 <= i < |a| && !InSignature(a, i) ==> a[i] == b[i]
  {
    hide ChainValue, CoveredLine;
    CoveredCases(a);
    CoveredCases(b);
    CoveredKeepsFields(a, HASH);
    CoveredKeepsFields(b, HASH);
    CoveredKeepsFields(a, SIGNATURE);
    CoveredKeepsFields(b, SIGNATURE);
    forall i | 0 <= i < |a| && !InSignature(a, i)
      ensures a[i] == b[i]
    {
      UncoverAt(a, i);
      UncoverAt(b, i);
    }
  }

  lemma SameUnsigned(a: bytes, b: bytes)
    requires |a| == |b|
    requires forall i :: 0 <= i < |a| ==> InSignature(a, i) == InSignature(b, i)
    requires forall i :: 0 <= i < |a| && !InSignature(a, i) ==> a[i] == b[i]
    ensures Unsigned(a) == Unsigned(b)
  {
    hide ChainValue, Unsigned, InSignature;
    if |a| > 0 {
      UnsignedAt(a, 0);
      UnsignedAt(b, 0);
      forall i | 0 <= i < |a|
        ensures Unsigned(a)[i] == Unsigned(b)[i]
      {
        UnsignedAt(a, i);
        UnsignedAt(b, i);
      }
    } else {
      assert a == b;
    }
  }

  /** Two lines equal but for the signature: the second is the first with its signature put in. */
  lemma SignatureIsPatch(a: bytes, b: bytes)
    requires |a| == |b|
    requires ChainValue(a, SIGNATURE).Found? && ChainValue(b, SIGNATURE).Found?
    requires ChainValue(a, SIGNATURE).off == ChainValue(b, SIGNATURE).off
    requires forall i :: 0 <= i < |a| && !InSignature(a, i) ==> a[i] == b[i]
    ensures var s, t := ChainValue(a, SIGNATURE), ChainValue(b, SIGNATURE);
      && FieldAt(a, SIGNATURE, s.off) && s.off + 64 <= |a| && |t.value| == 64 && AllHex(t.value)
      && b == Patch(a, s.off, t.value)
  {
    hide ChainValue;
    ChainValueMeaning(a, SIGNATURE);
    ChainValueMeaning(b, SIGNATURE);
  }

  /** The hash of an intact line names the line: with a key every byte, without one every
      byte but the signature value. */
  lemma SameHashSameLine(env: Env, key: Key, a: bytes, b: bytes, p: bytes, q: bytes)
    requires CheckLine(env, key, a, p).Intact? && CheckLine(env, key, b, q).Intact?
    requires CheckLine(env, key, a, p).hash == CheckLine(env, key, b, q).hash
    requires NoCollision(env, CoveredLine(a), CoveredLine(b))
    ensures Unsigned(a) == Unsigned(b)
    ensures key.Some? ==> a == b
    ensures key.Some? || HexBlind(env) ==> p == q
  {
    hide CheckLine, ChainValue, CoveredLine, Unsigned, FieldAt, Patch;
    IntactFacts(env, key, a, p);
    IntactFacts(env, key, b, q);
    HexEncodeInjective(env.sha(CoveredLine(a)), env.sha(CoveredLine(b)));
    UncoverLine(a, b);
    SameUnsigned(a, b);
    var s, t := ChainValue(a, SIGNATURE), ChainValue(b, SIGNATURE);
    if s.Found? {
      SignatureIsPatch(a, b);
      SignatureIsPatch(a, a);
      if key.None? && HexBlind(env) {
        assert Decode(env, Patch(a, s.off, t.value)) == Decode(env, a);
      }
    } else {
      assert a == b;
    }
  }

  // ---------------------------------------------------------------------------------------
  // Whole chains
  // ---------------------------------------------------------------------------------------

  /** SHA-256 tells apart every line of a from every line of b, as covered. */
  ghost predicate Apart(env: Env, a: seq<bytes>, b: seq<bytes>) {
    forall i, j :: 0 <= i < |a| && 0 <= j < |b| && ChainValue(a[i], HASH).Found? && ChainValue(b[j], HASH).Found?
      ==> NoCollision(env, CoveredLine(a[i]), CoveredLine(b[j]))
  }

  /** An accepted chain ends in the hash of its last line; only an empty one ends in "". */
  lemma FoldLast(env: Env, key: Key, lines: seq<bytes>)
    requires Fold(env, key, lines).Some?
    ensures lines == [] <==> Fold(env, key, lines).value.prev == []
    ensures lines != [] ==>
      var front := Fold(env, key, lines[..|lines| - 1]);
      && front.Some?
      && CheckLine(env, key, lines[|lines| - 1], front.value.prev).Intact?
      && CheckLine(env, key, lines[|lines| - 1], front.value.prev).hash == Fold(env, key, lines).value.prev
      && lines[|lines| - 1] != []
  {
    if lines != [] {
      var front := Fold(env, key, lines[..|lines| - 1]);
      IntactFacts(env, key, lines[|lines| - 1], front.value.prev);
    }
  }

  lemma {:induction false} ChainsEqual(env: Env, key: Key, a: seq<bytes>, b: seq<bytes>)
    requires Fold(env, key, a).Some? && Fold(env, key, b).Some?
    requires Fold(env, key, a).value.prev == Fold(env, key, b).value.prev
    requires Apart(env, a, b)
    requires key.Some? || HexBlind(env)
    ensures |a| == |b|
    ensures forall i :: 0 <= i < |a| ==> Unsigned(a[i]) == Unsigned(b[i])
    ensures key.Some? ==> a == b
  {
    hide CheckLine, ChainValue, CoveredLine, Unsigned, Fold, HexBlind;
    FoldLast(env, key, a);
    FoldLast(env, key, b);
    if a == [] {
    } else {
      var x, y := a[|a| - 1], b[|b| - 1];
      var a', b' := a[..|a| - 1], b[..|b| - 1];
      var p, q := Fold(env, key, a').value.prev, Fold(env, key, b').value.prev;
      IntactFacts(env, key, x, p);
      IntactFacts(env, key, y, q);
      SameHashSameLine(env, key, x, y, p, q);
      ChainsEqual(env, key, a', b');
      assert a == a' + [x] && b == b' + [y];
    }
  }

  // ---------------------------------------------------------------------------------------
  // Whole files
  // ---------------------------------------------------------------------------------------

  /** bytes.TrimRight(data, "\n"). */
  function TrimRight(data: bytes): bytes {
    if data != [] && data[|data| - 1] == NEWLINE then TrimRight(data[..|data| - 1]) else data
  }

  /** VerifyHead: the file verifies, and its last line ends the chain at want. */
  predicate VerifyHead(env: Env, key: Key, data: bytes, want: bytes) {
    && Accepts(env, key, data)
    && var lines := Split(NEWLINE, TrimRight(data));
       var got := ChainValue(lines[|lines| - 1], HASH);
       got.Found? && got.value == want
  }

  /** An accepted file holds no empty line, so at most one newline ends it. */
  lemma AcceptedTrim(env: Env, key: Key, data: bytes)
    requires Accepts(env, key, data)
    ensures LinesOf(data) == Split(NEWLINE, TrimRight(data)) && LinesOf(data) != []
    ensures data == TrimRight(data) || data == TrimRight(data) + [NEWLINE]
  {
    hide CheckLine, Fold, Split;
    var n := |data| - 1;
    LastPiece(NEWLINE, data);
    if data[n] == NEWLINE {
      var d := data[..n];
      assert data == d + [NEWLINE];
      SplitEndsInSep(NEWLINE, d);
      assert LinesOf(data) == Split(NEWLINE, d);
      FoldLast(env, key, Split(NEWLINE, d));
      assert Split(NEWLINE, d)[|Split(NEWLINE, d)| - 1] != [];
      if d != [] {
        LastPiece(NEWLINE, d);
      }
    }
  }

  /** The files VerifyHead accepts, exactly: those Verify accepts whose chain ends at want. */
  lemma HeadExactly(env: Env, key: Key, data: bytes, want: bytes)
    ensures VerifyHead(env, key, data, want) <==>
      Accepts(env, key, data) && Fold(env, key, LinesOf(data)).value.prev == want
  {
    hide CheckLine, ChainValue, Fold;
    if Accepts(env, key, data) {
      AcceptedTrim(env, key, data);
      var lines := LinesOf(data);
      FoldLast(env, key, lines);
      IntactFacts(env, key, lines[|lines| - 1], Fold(env, key, lines[..|lines| - 1]).value.prev);
    }
  }

  /** One head, one file. Under a key the files agree in every byte up to the final newline;
      without one they agree in every byte but the signature values. */
  lemma HeadNamesOneFile(env: Env, key: Key, d: bytes, e: bytes, want: bytes)
    requires VerifyHead(env, key, d, want) && VerifyHead(env, key, e, want)
    requires Apart(env, LinesOf(d), LinesOf(e))
    requires key.Some? || HexBlind(env)
    ensures key.Some? ==> TrimRight(d) == TrimRight(e)
    ensures |LinesOf(d)| == |LinesOf(e)|
    ensures forall i :: 0 <= i < |LinesOf(d)| ==> Unsigned(LinesOf(d)[i]) == Unsigned(LinesOf(e)[i])
  {
    hide CheckLine, ChainValue, Fold, HexBlind, Unsigned;
    HeadExactly(env, key, d, want);
    HeadExactly(env, key, e, want);
    ChainsEqual(env, key, LinesOf(d), LinesOf(e));
    AcceptedTrim(env, key, d);
    AcceptedTrim(env, key, e);
    JoinSplit(NEWLINE, TrimRight(d));
    JoinSplit(NEWLINE, TrimRight(e));
  }
}
