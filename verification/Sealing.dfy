/** The line seal writes is a line checkLine accepts, and exactly when it is not. */
module Sealing {
  import opened GoBytes
  import opened Tree
  import opened ChainField
  import opened Chain
  import opened HeadUnique

  // ---------------------------------------------------------------------------------------
  // What is asked of encoding/json
  // ---------------------------------------------------------------------------------------

  predicate EndsWith(s: string, suffix: string) {
    |suffix| <= |s| && s[|s| - |suffix|..] == suffix
  }

  /** Some key in the tree, at any depth, ends in name. */
  ghost predicate HasKey(v: Value, name: string) {
    match v
    case Obj(fields) => exists k :: k in fields && (EndsWith(k, name) || HasKey(fields[k], name))
    case Arr(items) => exists i :: 0 <= i < |items| && HasKey(items[i], name)
    case _ => false
  }

  predicate PlainBody(b: Body) {
    AllHex(b.head) && AllHex(b.keyId)
  }

  /** Decoding gives back a hex string, an integer, and whether the marker is an object. */
  predicate ReadsBack(v: View, w: View) {
    && (AllHex(v.prev) ==> w.prev == v.prev)
    && v.marker.Some? == w.marker.Some?
    && (v.marker.Some? && PlainBody(v.marker.value) ==> w.marker == v.marker)
  }

  /** An encoded object holds no raw newline, decodes to what was encoded, and shows the bytes
      "name":" only where a key ends in name. */
  ghost predicate Faithful(env: Env) {
    && (forall o :: env.marshal(o).Some? ==>
          var b := env.marshal(o).value;
          NoNewline(b) && Decode(env, b).Some? && ReadsBack(ViewOf(o), Decode(env, b).value))
    && (forall o, field, p :: FieldName(field) && env.marshal(o).Some? && !HasKey(Obj(o), field)
          ==> !Occurs(env.marshal(o).value, Marker(field), p))
  }

  ghost predicate JsonLaws(env: Env) {
    Faithful(env) && HexBlind(env)
  }

  // ---------------------------------------------------------------------------------------
  // A sealed line
  // ---------------------------------------------------------------------------------------

  /** An unkeyed journal writes no signature, so the line must not show one: checkLine would
      zero it before hashing, and seal did not. */
  predicate SignatureSafe(env: Env, key: Key, event: Object, prev: bytes) {
    var b := env.marshal(Chained(key, event, prev));
    key.Some? || b.None? ||
    var s := ChainValue(b.value, SIGNATURE);
    s.NotFound? || s.value == Placeholder()
  }

  lemma ChainedView(key: Key, event: Object, prev: bytes)
    ensures ViewOf(Chained(key, event, prev)) == View(prev, ViewOf(event).marker)
  {
    assert PREV_HASH[6] == 'p' && SIGNATURE[6] == 's';
  }

  lemma PatchTwice(b: bytes, off: nat, v: bytes, w: bytes)
    requires off + 64 <= |b| && |v| == 64 && |w| == 64
    ensures Patch(Patch(b, off, v), off, w) == Patch(b, off, w)
  {
  }

  /** Patching a field's value back in is what ChainValue then reads. */
  lemma PatchedValue(line: bytes, f: string, off: nat, v: bytes)
    requires FieldName(f) && FieldAt(line, f, off) && |v| == 64 && AllHex(v)
    ensures ChainValue(Patch(line, off, v), f) == Found(v, off)
  {
    hide ChainValue, FieldAt, Occurs;
    FieldFits(line, f, off);
    PatchKeepsField(line, f, off, v, f);
    ChainValueMeaning(Patch(line, off, v), f);
    assert Patch(line, off, v)[off..off + 64] == v;
  }

  /** A keyed seal: the line covers back to the encoded bytes with both values zeroed. */
  lemma KeyedCover(b: bytes, h: nat, s: nat, hash: bytes, sig: bytes, line: bytes)
    requires h + 64 <= |b| && s + 64 <= |b| && FieldAt(b, HASH, h) && FieldAt(b, SIGNATURE, s)
    requires |hash| == 64 && AllHex(hash) && |sig| == 64 && AllHex(sig)
    requires line == Patch(Patch(b, h, hash), s, sig)
    ensures ChainValue(line, HASH) == Found(hash, h) && ChainValue(line, SIGNATURE) == Found(sig, s)
    ensures CoveredLine(line) == Covered(b, [h, s])
  {
    hide ChainValue, CoveredLine, FieldAt, Occurs, Patch, Covered, HexAt;
    FieldsApart(b, h, s);
    HashedOnce(b, h, s, hash);
    KeyedValues(Patch(b, h, hash), h, s, hash, sig);
    CoveredBoth(line, h, s);
    KeyedPatches(b, h, hash, s, sig);
    CoverTwo(b, h, s);
  }

  lemma CoveredBoth(line: bytes, h: nat, s: nat)
    requires h + 64 <= |line| && s + 64 <= |line|
    requires ChainValue(line, HASH).Found? && ChainValue(line, HASH).off == h
    requires ChainValue(line, SIGNATURE).Found? && ChainValue(line, SIGNATURE).off == s
    ensures CoveredLine(line) == Patch(Patch(line, h, Placeholder()), s, Placeholder())
  {
    CoverTwo(line, h, s);
  }

  lemma HashedOnce(b: bytes, h: nat, s: nat, hash: bytes)
    requires FieldAt(b, HASH, h) && FieldAt(b, SIGNATURE, s) && |hash| == 64 && AllHex(hash)
    ensures var once := Patch(b, h, hash);
      FieldAt(once, HASH, h) && FieldAt(once, SIGNATURE, s) && once[h..h + 64] == hash
  {
    hide FieldAt, Occurs, Patch;
    FieldFits(b, HASH, h);
    PatchDiffers(b, HASH, h, hash);
    FieldMoves(b, Patch(b, h, hash), h, SIGNATURE, s);
    FieldMoves(b, Patch(b, h, hash), h, HASH, h);
    assert Patch(b, h, hash)[h..h + 64] == hash;
  }

  lemma KeyedPatches(b: bytes, h: nat, hash: bytes, s: nat, sig: bytes)
    requires h + 64 <= |b| && s + 64 <= |b| && (h + 64 <= s || s + 64 <= h)
    requires |hash| == 64 && |sig| == 64
    ensures Patch(Patch(Patch(Patch(b, h, hash), s, sig), h, Placeholder()), s, Placeholder())
         == Patch(Patch(b, h, Placeholder()), s, Placeholder())
  {
    var z := Placeholder();
    var x := Patch(Patch(Patch(Patch(b, h, hash), s, sig), h, z), s, z);
    var y := Patch(Patch(b, h, z), s, z);
    assert forall i :: 0 <= i < |b| ==> x[i] == y[i];
  }

  lemma KeyedValues(once: bytes, h: nat, s: nat, hash: bytes, sig: bytes)
    requires FieldAt(once, HASH, h) && FieldAt(once, SIGNATURE, s)
    requires |hash| == 64 && once[h..h + 64] == hash
    requires |sig| == 64 && AllHex(sig)
    ensures ChainValue(Patch(once, s, sig), HASH) == Found(hash, h)
    ensures ChainValue(Patch(once, s, sig), SIGNATURE) == Found(sig, s)
  {
    hide ChainValue, FieldAt, Occurs, DifferInHex;
    FieldFits(once, HASH, h);
    FieldFits(once, SIGNATURE, s);
    var line := Patch(once, s, sig);
    PatchedValue(once, SIGNATURE, s, sig);
    FieldsApart(once, h, s);
    PatchDiffers(once, SIGNATURE, s, sig);
    FieldMoves(once, line, s, HASH, h);
    ChainValueMeaning(line, HASH);
    assert line[h..h + 64] == hash;
  }

  /** An unkeyed seal: a signature the line shows all the same is zeroed on reading. */
  lemma UnkeyedCover(b: bytes, h: nat, hash: bytes, line: bytes)
    requires h + 64 <= |b| && FieldAt(b, HASH, h) && |hash| == 64 && AllHex(hash)
    requires line == Patch(b, h, hash)
    ensures ChainValue(line, HASH) == Found(hash, h)
    ensures ChainValue(b, SIGNATURE).NotFound? ==> CoveredLine(line) == Covered(b, [h])
    ensures ChainValue(b, SIGNATURE).Found? ==>
      (CoveredLine(line) == Covered(b, [h]) <==> ChainValue(b, SIGNATURE).value == Placeholder())
  {
    hide ChainValue, CoveredLine, FieldAt, Occurs, Covered, HexAt, Patch;
    PatchedValue(b, HASH, h, hash);
    PatchKeepsField(b, HASH, h, hash, SIGNATURE);
    CoveredCases(line);
    CoverOne(b, h);
    PatchTwice(b, h, hash, Placeholder());
    var s := ChainValue(b, SIGNATURE);
    if s.Found? {
      ChainValueMeaning(b, SIGNATURE);
      FieldsApart(b, h, s.off);
      ZeroedIsSame(b, h, s.off);
    }
  }

  lemma ZeroedIsSame(b: bytes, h: nat, s: nat)
    requires h + 64 <= |b| && s + 64 <= |b| && (h + 64 <= s || s + 64 <= h)
    ensures var x := Patch(b, h, Placeholder());
      Patch(x, s, Placeholder()) == x <==> b[s..s + 64] == Placeholder()
  {
    var x := Patch(b, h, Placeholder());
    assert b[s..s + 64] == x[s..s + 64];
    if Patch(x, s, Placeholder()) == x {
      assert Patch(x, s, Placeholder())[s..s + 64] == Placeholder();
    }
  }

  /** Decoding a sealed line reads what was encoded. */
  lemma SealedDecodes(env: Env, key: Key, event: Object, prev: bytes)
    requires JsonLaws(env) && AllHex(prev)
    requires SealLine(env, key, event, prev).Sealed?
    ensures var line := SealLine(env, key, event, prev).line;
      && line != [] && NoNewline(line)
      && Decode(env, line).Some?
      && Decode(env, line).value.prev == prev
      && ReadsBack(View(prev, ViewOf(event).marker), Decode(env, line).value)
  {
    hide ChainValue, ViewOf, Chained, Occurs, Patch;
    var b := env.marshal(Chained(key, event, prev)).value;
    ChainedView(key, event, prev);
    ChainValueMeaning(b, HASH);
    ChainValueMeaning(b, SIGNATURE);
    var h, s := ChainValue(b, HASH), ChainValue(b, SIGNATURE);
    var sealed := SealLine(env, key, event, prev);
    var once := Patch(b, h.off, sealed.hash);
    HexHasNoNewline(sealed.hash);
    assert Decode(env, once) == Decode(env, b);
    if key.Some? {
      var sig := Signature(env, key.value, sealed.hash);
      HexHasNoNewline(sig);
      HashedOnce(b, h.off, s.off, sealed.hash);
      assert Decode(env, Patch(once, s.off, sig)) == Decode(env, once);
    }
  }

  lemma HexHasNoNewline(s: bytes)
    requires AllHex(s)
    ensures NoNewline(s)
  {
  }

  lemma IntactWhen(env: Env, key: Key, line: bytes, prev: bytes)
    requires line != [] && ChainValue(line, HASH).Found?
    requires ChainValue(line, HASH).value == ShaHex(env, CoveredLine(line))
    requires Decode(env, line).Some? && Decode(env, line).value.prev == prev
    requires key.Some? ==>
      && ChainValue(line, SIGNATURE).Found?
      && ChainValue(line, SIGNATURE).value == Signature(env, key.value, ChainValue(line, HASH).value)
    ensures CheckLine(env, key, line, prev) ==
      Intact(ChainValue(line, HASH).value, Decode(env, line).value.marker)
  {
  }

  /** The line seal writes is the line checkLine accepts, when no unwritten signature shows
      in it. */
  lemma SealedChecks(env: Env, key: Key, event: Object, prev: bytes)
    requires JsonLaws(env) && AllHex(prev)
    requires SealLine(env, key, event, prev).Sealed? && SignatureSafe(env, key, event, prev)
    ensures var sealed := SealLine(env, key, event, prev);
      && Decode(env, sealed.line).Some?
      && CheckLine(env, key, sealed.line, prev) == Intact(sealed.hash, Decode(env, sealed.line).value.marker)
  {
    hide ChainValue, CoveredLine, Chained, ViewOf, Decode, FieldAt, Occurs, Patch, Covered, JsonLaws, CheckLine, HexAt;
    SealedDecodes(env, key, event, prev);
    var b := env.marshal(Chained(key, event, prev)).value;
    ChainValueMeaning(b, HASH);
    ChainValueMeaning(b, SIGNATURE);
    var h, s := ChainValue(b, HASH), ChainValue(b, SIGNATURE);
    var sealed := SealLine(env, key, event, prev);
    if key.Some? {
      KeyedCover(b, h.off, s.off, sealed.hash, Signature(env, key.value, sealed.hash), sealed.line);
    } else {
      UnkeyedCover(b, h.off, sealed.hash, sealed.line);
    }
    IntactWhen(env, key, sealed.line, prev);
  }

  /** SHA-256 tells apart the bytes an unkeyed seal hashed and the bytes a reader will hash. */
  ghost predicate SealApart(env: Env, event: Object, prev: bytes) {
    var b := env.marshal(Chained(None, event, prev));
    forall line, h | b.Some? && FieldAt(b.value, HASH, h) && ChainValue(line, HASH).Found? ::
      SealLine(env, None, event, prev) == Sealed(line, ShaHex(env, Patch(b.value, h, Placeholder())))
      ==> NoCollision(env, CoveredLine(line), Patch(b.value, h, Placeholder()))
  }

  /** The other direction: when an unwritten signature shows, its line is refused, unless
      SHA-256 collides on the two ways of covering it. */
  lemma StraySignatureBreaks(env: Env, event: Object, prev: bytes)
    requires SealLine(env, None, event, prev).Sealed? && SealApart(env, event, prev)
    requires !SignatureSafe(env, None, event, prev)
    ensures CheckLine(env, None, SealLine(env, None, event, prev).line, prev) == Broken(HashMismatch)
  {
    hide ChainValue, CoveredLine, Chained, FieldAt, Occurs, Patch, Covered, HexAt;
    var b := env.marshal(Chained(None, event, prev)).value;
    ChainValueMeaning(b, HASH);
    var h := ChainValue(b, HASH).off;
    FieldFits(b, HASH, h);
    var sealed := SealLine(env, None, event, prev);
    UnkeyedCover(b, h, sealed.hash, sealed.line);
    CoverOne(b, h);
    assert NoCollision(env, CoveredLine(sealed.line), Patch(b, h, Placeholder()));
    if ShaHex(env, CoveredLine(sealed.line)) == sealed.hash {
      HexEncodeInjective(env.sha(CoveredLine(sealed.line)), env.sha(Patch(b, h, Placeholder())));
      assert false;
    }
    MismatchWhen(env, None, sealed.line, prev);
  }

  lemma MismatchWhen(env: Env, key: Key, line: bytes, prev: bytes)
    requires line != [] && ChainValue(line, HASH).Found?
    requires ChainValue(line, HASH).value != ShaHex(env, CoveredLine(line))
    ensures CheckLine(env, key, line, prev) == Broken(HashMismatch)
  {
  }
}
