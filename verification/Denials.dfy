/**
 redact/redact.go: what Apply does to the value at a path, and what DeniesPath says of it, the
 answer for a caller that must decide before a value reaches an event.
 */
module Denials {
  import opened GoBytes
  import opened Tree
  import opened Tokens
  import opened KeyCut
  import opened KeyMatch
  import opened Redaction
  import opened Redactor

  /** The walk masks the entry at the path, or one above it. */
  ghost predicate AppliesAbove(r: Rules, path: seq<string>) {
    exists n :: 0 < n <= |path| && Masks(r, path[..n])
  }

  lemma {:induction false} TokensOfPath(path: seq<string>, i: nat, letters: Letters)
    requires i < |path|
    ensures exists before, after :: Tokenize(Full(path), letters) == before + Tokenize(path[i], letters) + after
  {
    hide Tokenize;
    var last := |path| - 1;
    if last == 0 {
      assert Full(path) == path[0];
      assert Tokenize(Full(path), letters) == [] + Tokenize(path[i], letters) + [];
    } else {
      var front := path[..last];
      JoinSnoc('.', front, path[last]);
      assert path == front + [path[last]];
      assert Full(path) == Full(front) + ['.'] + path[last];
      TokensJoined(Full(front), '.', path[last], letters);
      if i == last {
        assert Tokenize(Full(path), letters) == Tokenize(Full(front), letters) + Tokenize(path[i], letters) + [];
      } else {
        TokensOfPath(front, i, letters);
        var before, after :| Tokenize(Full(front), letters) == before + Tokenize(front[i], letters) + after;
        assert Tokenize(Full(path), letters) == before + Tokenize(path[i], letters) + (after + Tokenize(path[last], letters));
      }
    }
  }

  lemma RunInside(before: seq<string>, hay: seq<string>, after: seq<string>, needle: seq<string>)
    requires HasRun(hay, needle)
    ensures HasRun(before + hay + after, needle)
  {
    var i :| RunAt(hay, needle, i);
    var all := before + hay + after;
    assert all[|before| + i..|before| + i + |needle|] == needle;
    assert RunAt(all, needle, |before| + i);
  }

  lemma {:induction false} FullIsLonger(path: seq<string>, i: nat)
    requires i < |path|
    ensures |path[i]| <= |Full(path)|
  {
    var last := |path| - 1;
    if last == 0 {
    } else {
      JoinSnoc('.', path[..last], path[last]);
      assert path == path[..last] + [path[last]];
      if i < last {
        FullIsLonger(path[..last], i);
      }
    }
  }

  /** A plain entry that matches any name on the path matches the joined path, while the path
      is no longer than the cut. */
  lemma NameDenied(r: Rules, path: seq<string>, i: nat)
    requires i < |path| && |Full(path)| <= MAX_KEY && KeyDenied(r, path[i])
    ensures KeyDenied(r, Full(path))
  {
    hide Tokenize, HasRun, Glued;
    FullIsLonger(path, i);
    TokensOfPath(path, i, r.letters);
    var hay := Tokenize(path[i], r.letters);
    var before, after :| Tokenize(Full(path), r.letters) == before + hay + after;
    var k :| 0 <= k < |r.entries| && EntryMatches(r.entries[k], hay, r.letters);
    var words := Tokenize(CutKey(r.entries[k]), r.letters);
    if HasRun(hay, words) {
      RunInside(before, hay, after, words);
    } else {
      RunInside(before, hay, after, [Glued(words)]);
    }
    assert EntryMatches(r.entries[k], Tokenize(CutKey(Full(path)), r.letters), r.letters);
  }

  /** Some entry among the names after these is masked. */
  ghost predicate MasksIn(r: Rules, names: seq<string>, more: seq<string>) {
    exists n :: 0 < n <= |more| && Masks(r, names + more[..n])
  }

  lemma MasksCons(r: Rules, names: seq<string>, key: string, more: seq<string>)
    ensures MasksIn(r, names, [key] + more) <==> Masks(r, names + [key]) || MasksIn(r, names + [key], more)
  {
    hide Masks;
    var all := [key] + more;
    assert all[..1] == [key];
    forall n | 0 < n <= |more|
      ensures (names + [key]) + more[..n] == names + all[..n + 1]
    {
    }
    if n :| 0 < n <= |all| && Masks(r, names + all[..n]) && n > 1 {
      assert (names + [key]) + more[..n - 1] == names + all[..n];
    }
  }

  /** The walk of Apply reads the same, over keys and array items: some entry on the way is masked. */
  lemma {:induction false} HiddenIsAbove(r: Rules, names: seq<string>, steps: seq<Step>)
    ensures Hidden(r, names, steps) <==> MasksIn(r, names, NamesOf(steps))
    decreases |steps|
  {
    hide Masks, NamesOf;
    if steps == [] {
      assert NamesOf(steps) == [] by {
        NoNames();
      }
    } else {
      hide MasksIn;
      NamesStep(steps);
      HiddenIsAbove(r, Onto(names, steps[0]), steps[1..]);
      if steps[0].Field? {
        MasksCons(r, names, steps[0].key, NamesOf(steps[1..]));
      } else {
        assert [] + NamesOf(steps[1..]) == NamesOf(steps[1..]);
      }
    }
  }

  lemma NoNames()
    ensures NamesOf([]) == []
  {
  }

  // ---------------------------------------------------------------------------------------
  // What Apply does to the value at a place
  // ---------------------------------------------------------------------------------------

  /** The event has a value here, through objects and arrays, and not deeper than Apply walks. */
  predicate Reaches(r: Rules, event: Value, steps: seq<Step>) {
    event.Obj? && steps != [] && r.maxDepth >= 1 && |steps| <= r.maxDepth + 1 && Place(event, steps).Some?
  }

  /** After Apply the value is gone, or is its mask. */
  ghost predicate HiddenIn(r: Rules, event: Value, steps: seq<Step>)
    requires Reaches(r, event, steps)
  {
    var w := Place(ApplyMap(r, event, [], 0), steps);
    w.Some? ==> w.value == MaskValue(r, Place(event, steps).value)
  }

  /** After Apply the value is there: scanned if it is a scalar, walked if it is a container. */
  ghost predicate ShownIn(r: Rules, event: Value, steps: seq<Step>)
    requires Reaches(r, event, steps)
  {
    var w := Place(ApplyMap(r, event, [], 0), steps);
    w.Some? && Shows(r, Place(event, steps).value, w.value, NamesOf(steps), r.maxDepth + 1 - |steps|)
  }

  lemma {:induction false} PlaceConcat(v: Value, a: seq<Step>, b: seq<Step>)
    ensures Place(v, a + b) == var at := Place(v, a); if at.None? then None else Place(at.value, b)
  {
    if a == [] {
      assert a + b == b;
    } else {
      assert (a + b)[1..] == a[1..] + b;
      var child := Child(v, a[0]);
      if child.Some? {
        PlaceConcat(child.value, a[1..], b);
      }
    }
  }

  /** A hidden place has a masked entry at it or above it. */
  lemma {:induction false} MaskedStep(r: Rules, names: seq<string>, steps: seq<Step>) returns (m: nat)
    requires Hidden(r, names, steps)
    ensures 0 < m <= |steps| && steps[m - 1].Field? && NamesOf(steps[..m]) != [] && Masks(r, names + NamesOf(steps[..m]))
    decreases |steps|
  {
    hide Masks, NamesOf;
    if steps[0].Field? && Masks(r, Onto(names, steps[0])) {
      m := 1;
      OneName(names, steps[..1]);
    } else {
      m := MaskedStep(r, Onto(names, steps[0]), steps[1..]);
      assert steps[..m + 1][1..] == steps[1..][..m];
      StepNames(names, steps[..m + 1]);
      NamesStep(steps[..m + 1]);
      m := m + 1;
    }
  }

  /** Nothing stands below a masked entry. */
  lemma NothingBelowMask(r: Rules, event: Value, steps: seq<Step>, m: nat)
    requires event.Obj? && r.maxDepth >= 1 && 0 < m < |steps| && steps[m - 1].Field?
    requires NamesOf(steps[..m]) != [] && Masks(r, NamesOf(steps[..m]))
    ensures Place(ApplyMap(r, event, [], 0), steps).None?
  {
    hide Masks, ApplyMap, NamesOf, MaskValue, Place;
    var w, front, rest := ApplyMap(r, event, [], 0), steps[..m], steps[m..];
    assert steps == front + rest;
    PlaceConcat(w, front, rest);
    if Place(w, front).Some? {
      RedactionComplete(r, event, front);
      MaskIsScalar(r, Place(event, front).value);
      ScalarHasNothing(Place(w, front).value, rest);
    }
  }

  lemma ScalarHasNothing(v: Value, steps: seq<Step>)
    requires v.Str? && steps != []
    ensures Place(v, steps).None?
  {
  }

  lemma FromTheRoot(r: Rules, path: seq<string>)
    ensures AppliesAbove(r, path) <==> MasksIn(r, [], path)
  {
    hide Masks;
    forall n | 0 < n <= |path|
      ensures [] + path[..n] == path[..n]
    {
    }
  }

  /** Apply hides the value at a place if the walk masks the entry or one above it, and shows it
      otherwise. */
  lemma ApplyHides(r: Rules, event: Value, steps: seq<Step>)
    requires Reaches(r, event, steps)
    ensures AppliesAbove(r, NamesOf(steps)) ==> HiddenIn(r, event, steps)
    ensures !AppliesAbove(r, NamesOf(steps)) ==> ShownIn(r, event, steps)
  {
    hide Masks, ApplyMap, NamesOf, MaskValue, Place, Shows, Hidden, MasksIn, AppliesAbove;
    var path := NamesOf(steps);
    HiddenIsAbove(r, [], steps);
    FromTheRoot(r, path);
    if Hidden(r, [], steps) {
      var m := MaskedStep(r, [], steps);
      assert [] + NamesOf(steps[..m]) == NamesOf(steps[..m]);
      if m < |steps| {
        NothingBelowMask(r, event, steps, m);
      } else if Place(ApplyMap(r, event, [], 0), steps).Some? {
        assert steps[..m] == steps;
        RedactionComplete(r, event, steps);
      }
    } else {
      OnlyMasked(r, event, steps);
    }
  }

  // ---------------------------------------------------------------------------------------
  // DeniesPath against Apply
  // ---------------------------------------------------------------------------------------

  /** What hides the entry that ends the first n names, although DeniesPath looks elsewhere: a
      glob on its one name, a dotted entry for something above the path's end, or a plain entry
      when the path is kept or longer than the cut. */
  ghost predicate OutOfSight(r: Rules, path: seq<string>, n: nat)
    requires 0 < n <= |path|
  {
    !Keeps(r, path[..n]) && (
      || GlobDenied(r, path[n - 1])
      || (n < |path| && PathDenied(r, path[..n]))
      || (KeyDenied(r, path[n - 1]) && (|Full(path)| > MAX_KEY || Keeps(r, path))))
  }

  ghost predicate SomeOutOfSight(r: Rules, path: seq<string>) {
    exists n :: 0 < n <= |path| && OutOfSight(r, path, n)
  }

  /** Exactly which values the walk masks without DeniesPath saying so. */
  lemma MissesExactly(r: Rules, path: seq<string>)
    ensures AppliesAbove(r, path) && !DeniesPath(r, path) <==>
      !DeniesPath(r, path) && SomeOutOfSight(r, path)
  {
    hide KeyDenied, GlobDenied, PathDenied, Keeps, Full;
    assert path[..|path|] == path;
    forall n | 0 < n <= |path| && !DeniesPath(r, path)
      ensures Masks(r, path[..n]) <==> OutOfSight(r, path, n)
    {
      assert path[..n][n - 1] == path[n - 1];
      if KeyDenied(r, path[n - 1]) && |Full(path)| <= MAX_KEY {
        NameDenied(r, path, n - 1);
      }
    }
  }

  /** What Apply does to a value that DeniesPath does not deny: it hides it exactly when some part
      of the path is hidden out of sight. */
  lemma DeniesPathMisses(r: Rules, event: Value, steps: seq<Step>)
    requires Reaches(r, event, steps) && !DeniesPath(r, NamesOf(steps))
    ensures if SomeOutOfSight(r, NamesOf(steps)) then HiddenIn(r, event, steps) else ShownIn(r, event, steps)
  {
    hide AppliesAbove, DeniesPath, OutOfSight, HiddenIn, ShownIn, NamesOf, Reaches;
    MissesExactly(r, NamesOf(steps));
    ApplyHides(r, event, steps);
  }

  /** A glob denies one of the names, or a dotted entry denies a proper part of the path. */
  ghost predicate GlobOrDottedAbove(r: Rules, path: seq<string>) {
    || (exists i :: 0 <= i < |path| && GlobDenied(r, path[i]))
    || (exists n :: 0 < n < |path| && PathDenied(r, path[..n]))
  }

  lemma WithinCutExactly(r: Rules, path: seq<string>)
    requires |Full(path)| <= MAX_KEY && !DeniesPath(r, path)
    requires forall n :: 0 < n <= |path| ==> !Keeps(r, path[..n])
    ensures AppliesAbove(r, path) <==> GlobOrDottedAbove(r, path)
  {
    hide KeyDenied, GlobDenied, PathDenied, Full, Masks, DeniesPath, AppliesAbove, Keeps;
    MissesExactly(r, path);
    if path == [] {
      NothingAbove(r);
    } else {
      assert path[..|path|] == path;
      forall n | 0 < n <= |path|
        ensures OutOfSight(r, path, n) <==> GlobDenied(r, path[n - 1]) || (n < |path| && PathDenied(r, path[..n]))
      {
      }
      if i :| 0 <= i < |path| && GlobDenied(r, path[i]) {
        assert OutOfSight(r, path, i + 1);
      }
      if n :| 0 < n < |path| && PathDenied(r, path[..n]) {
        assert OutOfSight(r, path, n);
      }
    }
  }

  /** The same for a path within the cut of which no part is kept. */
  lemma WithinCutMisses(r: Rules, event: Value, steps: seq<Step>)
    requires Reaches(r, event, steps)
    requires |Full(NamesOf(steps))| <= MAX_KEY && !DeniesPath(r, NamesOf(steps))
    requires forall n :: 0 < n <= |NamesOf(steps)| ==> !Keeps(r, NamesOf(steps)[..n])
    ensures if GlobOrDottedAbove(r, NamesOf(steps)) then HiddenIn(r, event, steps) else ShownIn(r, event, steps)
  {
    hide GlobOrDottedAbove, AppliesAbove, HiddenIn, ShownIn, NamesOf, Reaches, Keeps, Full, DeniesPath;
    WithinCutExactly(r, NamesOf(steps));
    ApplyHides(r, event, steps);
  }

  lemma NothingAbove(r: Rules)
    ensures !AppliesAbove(r, [])
  {
  }

  lemma {:induction false} WordHasToken(key: string, letters: Letters)
    requires key != "" && NoSeparator(key)
    ensures Tokenize(key, letters) != []
  {
    NoSeparatorScan(key);
    assert Segments(key) == [key];
    hide ScanKey, CutTo;
    assert SplitCamel(key, letters) != [];
    assert [key][..0] == [];
    assert Tokens.Words([key], letters) == Tokens.Words([], letters) + SplitCamel(key, letters);
  }

  lemma FullOfTwo(a: string, b: string)
    ensures Full([a, b]) == a + "." + b
  {
    assert [a, b][1..] == [b];
    assert Join('.', [b]) == b;
    assert Join('.', [a, b]) == a + ['.'] + Join('.', [a, b][1..]);
  }

  /** A redactor of one dotted entry, user.secret, with the kept path every redactor has: Apply
      puts the mask in the place of user.secret and all it holds, and DeniesPath does not deny
      user.secret.pin. */
  lemma BelowDottedEntry(r: Rules, pin: Value)
    requires r.entries == [] && r.globs == [] && r.kept == {"rpc.mcp.session"} && r.maxDepth >= 1
    requires r.paths == [[Words(Tokenize("user", r.letters)), Words(Tokenize("secret", r.letters))]]
    ensures !DeniesPath(r, ["user", "secret", "pin"])
    ensures ApplyMap(r, Nested("user", Nested("secret", Nested("pin", pin))), [], 0) == Nested("user", Nested("secret", Str(r.replacement)))
  {
    hide Tokenize, ApplyMap, ApplyValue, Masks;
    var path, x := ["user", "secret", "pin"], Nested("pin", pin);
    UserSecretMasked(r);
    assert [] + ["user"] == ["user"] && ["user"] + ["secret"] == ["user", "secret"];
    OneEntry(r, "user", Nested("secret", x), [], 0);
    OneEntry(r, "secret", x, ["user"], 1);
    ValueIsWalked(r, Nested("secret", x), ["user"], 0);
    MaskOfObject(r, x);
  }

  lemma UserSecretMasked(r: Rules)
    requires r.entries == [] && r.globs == [] && r.kept == {"rpc.mcp.session"}
    requires r.paths == [[Words(Tokenize("user", r.letters)), Words(Tokenize("secret", r.letters))]]
    ensures !DeniesPath(r, ["user", "secret", "pin"]) && !Masks(r, ["user"]) && Masks(r, ["user", "secret"])
  {
    hide Tokenize;
    WordHasToken("user", r.letters);
    WordHasToken("secret", r.letters);
    var u, s := Tokenize("user", r.letters), Tokenize("secret", r.letters);
    assert RunAt(u, u, 0) && RunAt(s, s, 0);
    assert PathMatches(r, r.paths[0], ["user", "secret"]);
    FullOfTwo("user", "secret");
    assert |Full(["user", "secret"])| == 11 && |"rpc.mcp.session"| == 15;
    assert PathDenied(r, ["user", "secret"]);
  }

  function Nested(key: string, v: Value): Value {
    Obj(map[key := v])
  }

  lemma OneEntry(r: Rules, key: string, v: Value, names: seq<string>, depth: nat)
    ensures ApplyMap(r, Nested(key, v), names, depth) ==
      Nested(key, if Masks(r, names + [key]) then MaskValue(r, v) else ApplyValue(r, v, names + [key], depth))
  {
    hide Masks, MaskValue, ApplyValue;
  }

  lemma ValueIsWalked(r: Rules, v: Value, names: seq<string>, depth: nat)
    requires v.Obj? && depth + 1 <= r.maxDepth
    ensures ApplyValue(r, v, names, depth) == ApplyMap(r, v, names, depth + 1)
  {
  }

  lemma MaskOfObject(r: Rules, v: Value)
    requires v.Obj?
    ensures MaskValue(r, v) == Str(r.replacement)
  {
  }

  /** A redactor of one glob on names: Apply hides the number at user.card_number, and DeniesPath
      does not deny it, because it matches the glob against the joined path. */
  lemma GlobOnName(r: Rules, number: Value)
    requires r.entries == [] && r.globs == ["card_*"] && r.paths == [] && r.kept == {"rpc.mcp.session"} && r.maxDepth >= 1
    requires r.glob("card_*", Lower("card_number", r.letters)) && !r.glob("card_*", Lower("user.card_number", r.letters))
    ensures !DeniesPath(r, ["user", "card_number"])
    ensures ApplyMap(r, Nested("user", Nested("card_number", number)), [], 0) ==
      Nested("user", if r.glob("card_*", Lower("user", r.letters)) then Str(r.replacement)
                     else Nested("card_number", MaskValue(r, number)))
  {
    hide ApplyMap, ApplyValue, Masks, DeniesPath, MaskValue, Lower;
    var x := Nested("card_number", number);
    CardMasked(r);
    assert [] + ["user"] == ["user"] && ["user"] + ["card_number"] == ["user", "card_number"];
    OneEntry(r, "user", x, [], 0);
    OneEntry(r, "card_number", number, ["user"], 1);
    ValueIsWalked(r, x, ["user"], 0);
    MaskOfObject(r, x);
  }

  lemma CardMasked(r: Rules)
    requires r.entries == [] && r.globs == ["card_*"] && r.paths == [] && r.kept == {"rpc.mcp.session"}
    requires r.glob("card_*", Lower("card_number", r.letters)) && !r.glob("card_*", Lower("user.card_number", r.letters))
    ensures !DeniesPath(r, ["user", "card_number"]) && Masks(r, ["user", "card_number"])
    ensures Masks(r, ["user"]) <==> r.glob("card_*", Lower("user", r.letters))
  {
    hide Tokenize;
    FullOfTwo("user", "card_number");
    assert Full(["user", "card_number"]) == "user.card_number";
    assert Full(["user"]) == "user";
    assert |"user"| == 4 && |"user.card_number"| == 16 && |"rpc.mcp.session"| == 15;
    assert r.globs[0] == "card_*";
  }

  // ---------------------------------------------------------------------------------------
  // What DeniesPath denies and Apply shows
  // ---------------------------------------------------------------------------------------

  /** A plain entry stands in the joined path and in no name of it that is not kept. */
  ghost predicate AcrossNames(r: Rules, path: seq<string>, k: nat)
    requires k < |r.entries|
  {
    && EntryMatches(r.entries[k], Tokenize(CutKey(Full(path)), r.letters), r.letters)
    && forall n :: 0 < n <= |path| && !Keeps(r, path[..n]) ==>
         !EntryMatches(r.entries[k], Tokenize(CutKey(path[n - 1]), r.letters), r.letters)
  }

  ghost predicate SomeAcross(r: Rules, path: seq<string>) {
    exists k :: 0 <= k < |r.entries| && AcrossNames(r, path, k)
  }

  /** DeniesPath denies a value that Apply shows exactly when a plain entry stands across several
      names, or a glob matches the joined path, and nothing on the path is masked. */
  lemma DeniesShown(r: Rules, event: Value, steps: seq<Step>, path: seq<string>)
    requires path == NamesOf(steps)
    ensures DeniesPath(r, path) && !AppliesAbove(r, path) <==>
      && !AppliesAbove(r, path) && !Keeps(r, path)
      && (GlobDenied(r, Full(path)) || (path == [] && PathDenied(r, path)) || SomeAcross(r, path))
    ensures Reaches(r, event, steps) && DeniesPath(r, path) && !AppliesAbove(r, path) ==> ShownIn(r, event, steps)
  {
    hide EntryMatches, GlobDenied, PathDenied, Full, Tokenize, Keeps, ShownIn, Reaches, NamesOf;
    assert path[..|path|] == path;
    if !AppliesAbove(r, path) {
      forall n | 0 < n <= |path| && !Keeps(r, path[..n])
        ensures !KeyDenied(r, path[n - 1])
      {
        assert !Masks(r, path[..n]) && path[..n][n - 1] == path[n - 1];
      }
      forall k | 0 <= k < |r.entries|
        ensures AcrossNames(r, path, k) <==> EntryMatches(r.entries[k], Tokenize(CutKey(Full(path)), r.letters), r.letters)
      {
      }
    }
    if Reaches(r, event, steps) {
      ApplyHides(r, event, steps);
    }
  }

  lemma ApiKeyTokens(letters: Letters)
    requires Usual(letters)
    ensures Tokenize("api_key", letters) == Tokenize("api.key", letters) == ["api", "key"]
    ensures Tokenize("api", letters) == ["api"] && Tokenize("key", letters) == ["key"]
  {
    hide Tokenize;
    PlainToken("api", letters);
    PlainToken("key", letters);
    TokensJoined("api", '_', "key", letters);
    TokensJoined("api", '.', "key", letters);
    assert "api" + ['_'] + "key" == "api_key" && "api" + ['.'] + "key" == "api.key";
    assert ["api"] + ["key"] == ["api", "key"];
  }

  lemma ApiKeyDenies(r: Rules, key: string)
    requires r.entries == ["api_key"] && Usual(r.letters) && |key| <= 7
    ensures KeyDenied(r, key) <==>
      HasRun(Tokenize(key, r.letters), ["api", "key"]) || HasRun(Tokenize(key, r.letters), [Glued(["api", "key"])])
  {
    hide Tokenize, HasRun, Glued;
    ApiKeyTokens(r.letters);
    assert CutKey("api_key") == "api_key" && CutKey(key) == key;
    assert r.entries[0] == "api_key";
  }

  lemma ApiKeyRuns()
    ensures HasRun(["api", "key"], ["api", "key"])
    ensures !HasRun(["api"], ["api", "key"]) && !HasRun(["key"], ["api", "key"])
    ensures !HasRun(["api"], [Glued(["api", "key"])]) && !HasRun(["key"], [Glued(["api", "key"])])
  {
    assert RunAt(["api", "key"], ["api", "key"], 0);
    GluedSnoc([], "api");
    GluedSnoc(["api"], "key");
    assert [] + ["api"] == ["api"] && ["api"] + ["key"] == ["api", "key"];
    hide Glued, HasRun;
    OtherWords(["api"], Glued(["api", "key"]));
    OtherWords(["key"], Glued(["api", "key"]));
    TooShort(["api"], ["api", "key"]);
    TooShort(["key"], ["api", "key"]);
  }

  lemma TooShort(hay: seq<string>, needle: seq<string>)
    requires |hay| < |needle|
    ensures !HasRun(hay, needle)
  {
  }

  /** The one entry api_key: DeniesPath denies api.key, and Apply shows it. */
  lemma ApiKeyAcrossNames(r: Rules)
    requires r.entries == ["api_key"] && r.globs == [] && r.paths == [] && r.kept == {"rpc.mcp.session"} && Usual(r.letters)
    ensures DeniesPath(r, ["api", "key"]) && !AppliesAbove(r, ["api", "key"])
  {
    hide Tokenize, KeyDenied, HasRun, Glued;
    var path := ["api", "key"];
    FullOfTwo("api", "key");
    assert Full(path) == "api.key" && |"api.key"| == 7 && |"rpc.mcp.session"| == 15;
    ApiKeyTokens(r.letters);
    ApiKeyRuns();
    ApiKeyDenies(r, "api.key");
    ApiKeyDenies(r, "api");
    ApiKeyDenies(r, "key");
    forall n | 0 < n <= 2
      ensures path[..n][n - 1] == (if n == 1 then "api" else "key")
    {
    }
  }
}
