/**
 redact/redact.go, cutKey: a key is searched in its first 256 characters only. When that changes
 the answer, and two keys for which it does.
 */
module KeyCut {
  import opened Tokens
  import opened KeyMatch

  /** The entry's words, in a row or run together, stand in the tokens and end after the first n. */
  ghost predicate EndsAfter(entry: string, tokens: seq<string>, n: nat, letters: Letters) {
    var words := Tokenize(CutKey(entry), letters);
    words != [] && (RunEndsAfter(tokens, words, n) || RunEndsAfter(tokens, [Glued(words)], n))
  }

  ghost predicate SomeEndsAfter(entries: seq<string>, tokens: seq<string>, n: nat, letters: Letters) {
    exists k :: 0 <= k < |entries| && EndsAfter(entries[k], tokens, n, letters)
  }

  ghost predicate RunEndsAfter(hay: seq<string>, needle: seq<string>, n: nat) {
    exists i {:trigger RunAt(hay, needle, i)} :: RunAt(hay, needle, i) && i + |needle| > n
  }

  /** A run in a + b stands in a, or ends in b. */
  lemma RunInEither(a: seq<string>, b: seq<string>, needle: seq<string>)
    requires needle != []
    ensures HasRun(a + b, needle) <==> HasRun(a, needle) || RunEndsAfter(a + b, needle, |a|)
  {
    if i :| RunAt(a + b, needle, i) && i + |needle| <= |a| {
      assert (a + b)[i..i + |needle|] == a[i..i + |needle|];
      assert RunAt(a, needle, i);
    }
    if i :| RunAt(a, needle, i) {
      assert (a + b)[i..i + |needle|] == a[i..i + |needle|];
      assert RunAt(a + b, needle, i);
    }
  }

  lemma EntryInEither(entry: string, a: seq<string>, b: seq<string>, letters: Letters)
    ensures EntryMatches(entry, a + b, letters) <==>
      EntryMatches(entry, a, letters) || EndsAfter(entry, a + b, |a|, letters)
  {
    hide Tokenize, HasRun, RunEndsAfter, Glued;
    var words := Tokenize(CutKey(entry), letters);
    if words != [] {
      RunInEither(a, b, words);
      RunInEither(a, b, [Glued(words)]);
    }
  }

  lemma KeyInEither(entries: seq<string>, tokens: seq<string>, n: nat, letters: Letters)
    requires n <= |tokens|
    ensures KeyMatches(entries, tokens, letters) <==>
      KeyMatches(entries, tokens[..n], letters) || SomeEndsAfter(entries, tokens, n, letters)
  {
    hide EntryMatches, EndsAfter;
    assert tokens == tokens[..n] + tokens[n..];
    forall k | 0 <= k < |entries|
      ensures EntryMatches(entries[k], tokens, letters) <==>
        EntryMatches(entries[k], tokens[..n], letters) || EndsAfter(entries[k], tokens, n, letters)
    {
      EntryInEither(entries[k], tokens[..n], tokens[n..], letters);
    }
  }

  // ---------------------------------------------------------------------------------------
  // The tokens that the rest of a key cannot change
  // ---------------------------------------------------------------------------------------

  /** A longer key has the segments that ended, and the one under way begins its next one. */
  predicate Extends(s: Scan, t: Scan) {
    && s.segments <= t.segments
    && (s.cur != "" ==> s.cur <= if |t.segments| == |s.segments| then t.cur else t.segments[|s.segments|])
  }

  lemma {:induction false} ScanExtends(key: string, more: string)
    ensures Extends(ScanKey(key), ScanKey(key + more))
    decreases |more|
  {
    hide ScanKey;
    if more == "" {
      assert key + more == key;
    } else {
      var front, c := more[..|more| - 1], more[|more| - 1];
      ScanExtends(key, front);
      assert key + more == (key + front) + [c];
      ScanSnoc(key + front, c);
    }
  }

  /** The pieces of a segment that its last character, or what follows it, cannot move. */
  function EarlyPieces(cur: string, letters: Letters): seq<string> {
    if |cur| < 2 then [] else CutTo(cur, |cur| - 1, letters).pieces
  }

  lemma {:induction false} CutAgrees(cur: string, seg: string, i: nat, letters: Letters)
    requires cur <= seg && 1 <= i < |cur|
    ensures CutTo(cur, i, letters) == CutTo(seg, i, letters)
    decreases i
  {
    if i == 1 {
    } else {
      CutAgrees(cur, seg, i - 1, letters);
      assert forall k :: 0 <= k <= i ==> cur[k] == seg[k];
      assert Boundary(cur, i - 1, letters) == Boundary(seg, i - 1, letters);
      var start := CutTo(cur, i - 1, letters).start;
      assert cur[start..i - 1] == seg[start..i - 1];
    }
  }

  lemma {:induction false} PiecesGrow(seg: string, i: nat, j: nat, letters: Letters)
    requires 1 <= i <= j <= |seg|
    ensures CutTo(seg, i, letters).pieces <= CutTo(seg, j, letters).pieces
    decreases j
  {
    hide Boundary;
    if i == j {
    } else {
      PiecesGrow(seg, i, j - 1, letters);
    }
  }

  lemma EarlyInSegment(cur: string, seg: string, letters: Letters)
    requires cur <= seg
    ensures EarlyPieces(cur, letters) <= SplitCamel(seg, letters)
  {
    if |cur| < 2 {
    } else {
      hide CutTo;
      CutAgrees(cur, seg, |cur| - 1, letters);
      PiecesGrow(seg, |cur| - 1, |seg|, letters);
    }
  }

  /** The words of a key that no longer key loses: those of the ended segments, and the early
      pieces of the segment under way. */
  function EarlyWords(key: string, letters: Letters): seq<string> {
    Words(ScanKey(key).segments, letters) + EarlyPieces(ScanKey(key).cur, letters)
  }

  lemma EarlyStay(key: string, more: string, letters: Letters)
    ensures EarlyWords(key, letters) <= Words(Segments(key + more), letters)
  {
    hide ScanKey, Words, SplitCamel, EarlyPieces;
    ScanExtends(key, more);
    var s, all := ScanKey(key), Segments(key + more);
    var n := |s.segments|;
    if s.cur == "" {
      EarlyInSegment("", "", letters);
      WordsOfOne("", letters);
      assert all == s.segments + all[n..];
      WordsConcat(s.segments, all[n..], letters);
    } else {
      EarlyInSegment(s.cur, all[n], letters);
      assert all == s.segments + ([all[n]] + all[n + 1..]);
      WordsConcat(s.segments, [all[n]] + all[n + 1..], letters);
      WordsConcat([all[n]], all[n + 1..], letters);
      WordsOfOne(all[n], letters);
    }
  }

  /** No more than two words of a key can still change. */
  lemma EarlyWordsAreMost(key: string, letters: Letters)
    ensures |Words(Segments(key), letters)| <= |EarlyWords(key, letters)| + 2
  {
    hide ScanKey, SplitCamel, EarlyPieces;
    var s := ScanKey(key);
    if s.cur != "" {
      WordsConcat(s.segments, [s.cur], letters);
      WordsOfOne(s.cur, letters);
      EarlyPiecesAreMost(s.cur, letters);
    }
  }

  lemma EarlyPiecesAreMost(cur: string, letters: Letters)
    ensures |SplitCamel(cur, letters)| <= |EarlyPieces(cur, letters)| + 2
  {
    hide Boundary;
  }

  /** The cut of a key begins with the key's own tokens, but for two at most. */
  lemma SharedTokens(key: string, letters: Letters)
    ensures var cut, whole := Tokenize(CutKey(key), letters), Tokenize(key, letters);
      forall n :: 0 <= n <= |cut| - 2 ==> n <= |whole| && cut[..n] == whole[..n]
  {
    hide EarlyWords, Words, Segments, Lower;
    var cut := CutKey(key);
    EarlyStay(cut, "", letters);
    EarlyStay(cut, key[|cut|..], letters);
    EarlyWordsAreMost(cut, letters);
    assert cut + "" == cut && cut + key[|cut|..] == key;
    var early, some, all := EarlyWords(cut, letters), Words(Segments(cut), letters), Words(Segments(key), letters);
    assert forall n :: 0 <= n <= |early| ==> some[..n] == early[..n] == all[..n];
  }

  /** The answer for a key is the answer for its cut. The search of the whole key answers otherwise
      if and only if no entry stands in the tokens that the two begin with, and some entry ends
      behind them in the one and none does in the other. The two begin with the same tokens, but
      for the last two of the cut. */
  lemma CutChangesAnswer(entries: seq<string>, key: string, letters: Letters, n: nat)
    requires n <= |Tokenize(CutKey(key), letters)| && n <= |Tokenize(key, letters)|
    requires Tokenize(CutKey(key), letters)[..n] == Tokenize(key, letters)[..n]
    ensures var cut, whole := Tokenize(CutKey(key), letters), Tokenize(key, letters);
      KeyMatches(entries, cut, letters) != KeyMatches(entries, whole, letters) <==>
        && !KeyMatches(entries, whole[..n], letters)
        && SomeEndsAfter(entries, cut, n, letters) != SomeEndsAfter(entries, whole, n, letters)
  {
    hide Tokenize, KeyMatches, SomeEndsAfter;
    KeyInEither(entries, Tokenize(CutKey(key), letters), n, letters);
    KeyInEither(entries, Tokenize(key, letters), n, letters);
  }

  // ---------------------------------------------------------------------------------------
  // Two keys
  // ---------------------------------------------------------------------------------------

  /** The small letters of US-ASCII are not upper case, and lowercasing leaves them alone. */
  ghost predicate Usual(letters: Letters) {
    forall c :: 'a' <= c <= 'z' ==> !letters.upper(c) && letters.fold(c) == c
  }

  ghost predicate Plain(word: string) {
    forall k :: 0 <= k < |word| ==> 'a' <= word[k] <= 'z'
  }

  lemma {:induction false} PlainCut(word: string, i: nat, letters: Letters)
    requires Usual(letters) && Plain(word) && 1 <= i <= |word|
    ensures CutTo(word, i, letters) == Cut([], 0)
    decreases i
  {
    if i == 1 {
    } else {
      PlainCut(word, i - 1, letters);
    }
  }

  /** A word of plain letters is its own one token. */
  lemma PlainToken(word: string, letters: Letters)
    requires Usual(letters) && Plain(word) && word != ""
    ensures Tokenize(word, letters) == [word]
  {
    hide ScanKey, CutTo, Words, SplitCamel;
    NoSeparatorScan(word);
    assert Segments(word) == [word];
    PlainCamel(word, letters);
    WordsOfOne(word, letters);
    assert Lower(word, letters) == word;
  }

  lemma PlainCamel(word: string, letters: Letters)
    requires Usual(letters) && Plain(word) && word != ""
    ensures SplitCamel(word, letters) == [word]
  {
    PlainCut(word, |word|, letters);
    hide CutTo;
    assert word[0..] == word;
  }

  lemma OtherWords(hay: seq<string>, other: string)
    requires forall k :: 0 <= k < |hay| ==> |hay[k]| != |other|
    ensures !HasRun(hay, [other])
  {
    if i :| RunAt(hay, [other], i) {
      RunOfOne(hay, other, i);
    }
  }

  lemma RunOfOne(hay: seq<string>, other: string, i: int)
    requires RunAt(hay, [other], i)
    ensures 0 <= i < |hay| && hay[i] == other
  {
    assert hay[i..i + 1][0] == hay[i];
  }

  function Letters256(): (s: string)
    ensures |s| == MAX_KEY && Plain(s)
  {
    seq(MAX_KEY, _ => 'a')
  }

  /** The entry password matches exactly the keys with that token. */
  lemma PasswordIn(tokens: seq<string>, letters: Letters)
    requires Usual(letters)
    ensures KeyMatches(["password"], tokens, letters) <==> HasRun(tokens, ["password"])
  {
    hide Tokenize, HasRun;
    assert Plain("password") && CutKey("password") == "password";
    PlainToken("password", letters);
    assert Glued(["password"]) == "password" by {
      assert ["password"][..0] == [];
    }
    assert EntryMatches(["password"][0], tokens, letters) == HasRun(tokens, ["password"]);
  }

  /** 256 letters and then "_password": the denylist's own entry is in the key, and the key is
      not matched. */
  lemma PasswordBehindCut(letters: Letters)
    requires Usual(letters)
    ensures !KeyMatches(["password"], Tokenize(CutKey(Letters256() + ['_'] + "password"), letters), letters)
    ensures KeyMatches(["password"], Tokenize(Letters256() + ['_'] + "password", letters), letters)
  {
    hide Tokenize, KeyMatches;
    var head := Letters256();
    assert CutKey(head + ['_'] + "password") == head;
    PlainToken(head, letters);
    PlainToken("password", letters);
    TokensJoined(head, '_', "password", letters);
    assert [head] + ["password"] == [head, "password"];
    PasswordIn([head], letters);
    PasswordIn([head, "password"], letters);
    OtherWords([head], "password");
    assert RunAt([head, "password"], ["password"], 1);
  }

  function Letters247(): (s: string)
    ensures |s| == 247 && Plain(s)
  {
    seq(247, _ => 'a')
  }

  /** 247 letters and then "_passwordless": the cut ends in "_password", which is matched,
      although no token of the key is the entry. */
  lemma PasswordlessIsMatched(letters: Letters)
    requires Usual(letters)
    ensures var key := Letters247() + ['_'] + "passwordless";
      && KeyMatches(["password"], Tokenize(CutKey(key), letters), letters)
      && !KeyMatches(["password"], Tokenize(key, letters), letters)
  {
    hide Tokenize, KeyMatches;
    var head := Letters247();
    var key := head + ['_'] + "passwordless";
    assert CutKey(key) == head + ['_'] + "password" by {
      assert "passwordless"[..8] == "password";
    }
    PlainToken(head, letters);
    PlainToken("password", letters);
    PlainToken("passwordless", letters);
    TokensJoined(head, '_', "password", letters);
    TokensJoined(head, '_', "passwordless", letters);
    assert [head] + ["password"] == [head, "password"] && [head] + ["passwordless"] == [head, "passwordless"];
    PasswordIn([head, "password"], letters);
    PasswordIn([head, "passwordless"], letters);
    assert RunAt([head, "password"], ["password"], 1);
    OtherWords([head, "passwordless"], "password");
  }
}
