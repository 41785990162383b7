/**
 redact/redact.go and redact/match.go: how a denylist of plain entries matches a key. Its
 entries are stored as joined text, and a search is cut to the longest of them.
 */
module KeyMatch {
  import opened GoBytes
  import opened Tokens

  const MAX_KEY := 256

  const CACHE_LIMIT: nat := 4096

  function CutKey(key: string): (r: string)
    ensures |r| <= MAX_KEY && r <= key
  {
    if |key| <= MAX_KEY then key else key[..MAX_KEY]
  }

  /** needle stands in hay as a contiguous run. */
  ghost predicate HasRun(hay: seq<string>, needle: seq<string>) {
    needle != [] && exists i {:trigger RunAt(hay, needle, i)} :: RunAt(hay, needle, i)
  }

  predicate RunAt(hay: seq<string>, needle: seq<string>, i: int) {
    0 <= i && i + |needle| <= |hay| && hay[i..i + |needle|] == needle
  }

  /** containsRun. */
  method ContainsRun(hay: seq<string>, needle: seq<string>) returns (found: bool)
    ensures found <==> HasRun(hay, needle)
  {
    if |needle| == 0 || |needle| > |hay| {
      return false;
    }
    var i := 0;
    while i + |needle| <= |hay|
      invariant 0 <= i <= |hay| - |needle| + 1
      invariant forall k :: 0 <= k < i ==> !RunAt(hay, needle, k)
    {
      var match_ := true;
      var j := 0;
      while j < |needle|
        invariant 0 <= j <= |needle|
        invariant match_ <==> hay[i..i + j] == needle[..j]
        invariant !match_ ==> hay[i..i + |needle|] != needle
      {
        if hay[i + j] != needle[j] {
          assert hay[i..i + |needle|][j] != needle[j];
          match_ := false;
          break;
        }
        assert hay[i..i + j + 1] == hay[i..i + j] + [hay[i + j]];
        assert needle[..j + 1] == needle[..j] + [needle[j]];
        j := j + 1;
      }
      if match_ {
        assert needle[..|needle|] == needle;
        assert RunAt(hay, needle, i);
        return true;
      }
      i := i + 1;
    }
    return false;
  }

  // ---------------------------------------------------------------------------------------
  // The compiled entries
  // ---------------------------------------------------------------------------------------

  /** joinTokens, and the same tokens with nothing between them. */
  function Joined(tokens: seq<string>): string {
    if tokens == [] then "" else Join(' ', tokens)
  }

  /** The compiled leaf entries: the texts a run may join to, and the longest entry. */
  datatype Leaves = Leaves(texts: set<string>, longest: nat)

  function AddLeaf(l: Leaves, entry: string, letters: Letters): Leaves {
    var tokens := Tokenize(CutKey(entry), letters);
    Leaves(l.texts + {Joined(tokens), Glued(tokens)}, if |tokens| > l.longest then |tokens| else l.longest)
  }

  function AddLeaves(entries: seq<string>, letters: Letters): Leaves {
    if entries == [] then Leaves({}, 0)
    else AddLeaf(AddLeaves(entries[..|entries| - 1], letters), entries[|entries| - 1], letters)
  }

  function Compile(entries: seq<string>, letters: Letters): Leaves {
    var l := AddLeaves(entries, letters);
    if l.longest == 0 then l.(longest := 1) else l
  }

  /** The leaf branch of build, over the entries without a dot or a star. */
  method Build(entries: seq<string>, letters: Letters) returns (l: Leaves)
    ensures l == Compile(entries, letters)
  {
    hide Tokenize, Joined, Glued;
    var texts: set<string>, longest: nat := {}, 0;
    for k := 0 to |entries|
      invariant Leaves(texts, longest) == AddLeaves(entries[..k], letters)
    {
      assert entries[..k + 1][..k] == entries[..k];
      var tokens := TokenizeLoop(CutKey(entries[k]), letters);
      texts := texts + {Joined(tokens)};
      var joined := Glued(tokens);
      if joined != Joined(tokens) {
        texts := texts + {joined};
      }
      if |tokens| > longest {
        longest := |tokens|;
      }
    }
    assert entries[..|entries|] == entries;
    if longest == 0 {
      longest := 1;
    }
    l := Leaves(texts, longest);
  }

  /** Some run of at most the longest entry's tokens joins to a stored text. */
  ghost predicate Matches(l: Leaves, tokens: seq<string>) {
    exists i, j :: 0 <= i < j <= |tokens| && j <= i + l.longest && Joined(tokens[i..j]) in l.texts
  }

  /** matchesKey, over the tokens of the key. */
  method MatchesKeyLoop(l: Leaves, tokens: seq<string>) returns (found: bool)
    ensures found <==> Matches(l, tokens)
  {
    hide Joined;
    for i := 0 to |tokens|
      invariant forall a, b :: 0 <= a < i && a < b <= |tokens| && b <= a + l.longest ==> Joined(tokens[a..b]) !in l.texts
    {
      var limit := if i + l.longest <= |tokens| then i + l.longest else |tokens|;
      for j := i + 1 to limit + 1
        invariant forall b :: i < b < j ==> Joined(tokens[i..b]) !in l.texts
      {
        if Joined(tokens[i..j]) in l.texts {
          return true;
        }
      }
    }
    return false;
  }

  // ---------------------------------------------------------------------------------------
  // What the search finds
  // ---------------------------------------------------------------------------------------

  /** The entry's words stand in the key in a row, or its words run together are one word. */
  ghost predicate EntryMatches(entry: string, tokens: seq<string>, letters: Letters) {
    var words := Tokenize(CutKey(entry), letters);
    words != [] && (HasRun(tokens, words) || HasRun(tokens, [Glued(words)]))
  }

  /** Some entry of the denylist matches a key with these tokens. */
  ghost predicate KeyMatches(entries: seq<string>, tokens: seq<string>, letters: Letters) {
    exists k :: 0 <= k < |entries| && EntryMatches(entries[k], tokens, letters)
  }

  predicate AllTokens(tokens: seq<string>) {
    forall k :: 0 <= k < |tokens| ==> Token(tokens[k])
  }

  /** Joining loses nothing: tokens hold no space. */
  lemma JoinedInjective(a: seq<string>, b: seq<string>)
    requires AllTokens(a) && AllTokens(b) && Joined(a) == Joined(b)
    ensures a == b
  {
    if a != [] && b != [] {
      SplitJoin(' ', a);
      SplitJoin(' ', b);
    } else if a != [] {
      JoinedEmpty(a);
    } else if b != [] {
      JoinedEmpty(b);
    }
  }

  lemma JoinedEmpty(a: seq<string>)
    requires AllTokens(a) && a != []
    ensures Joined(a) != ""
  {
    assert a[0] != "";
  }

  lemma {:induction false} GluedIsToken(words: seq<string>)
    requires AllTokens(words) && words != []
    ensures Token(Glued(words))
  {
    var front, last := words[..|words| - 1], words[|words| - 1];
    assert Token(last);
    if front == [] {
    } else {
      GluedIsToken(front);
    }
  }

  lemma {:induction false} TextsOf(entries: seq<string>, letters: Letters, text: string)
    ensures text in AddLeaves(entries, letters).texts <==> exists k :: 0 <= k < |entries| && Stored(entries[k], text, letters)
    ensures forall k :: 0 <= k < |entries| ==> |Tokenize(CutKey(entries[k]), letters)| <= AddLeaves(entries, letters).longest
  {
    hide Tokenize, Joined, Glued;
    if entries == [] {
    } else {
      var front, last := entries[..|entries| - 1], entries[|entries| - 1];
      TextsOf(front, letters, text);
      assert forall k :: 0 <= k < |front| ==> entries[k] == front[k];
      if Stored(last, text, letters) {
        assert Stored(entries[|entries| - 1], text, letters);
      }
    }
  }

  predicate Stored(entry: string, text: string, letters: Letters) {
    var words := Tokenize(CutKey(entry), letters);
    text == Joined(words) || text == Glued(words)
  }

  /** The bounded search over joined texts finds exactly what an unbounded search for the
      entries' words would. */
  lemma SearchIsExact(entries: seq<string>, tokens: seq<string>, letters: Letters)
    requires Sound(letters) && AllTokens(tokens)
    ensures Matches(Compile(entries, letters), tokens) <==> KeyMatches(entries, tokens, letters)
  {
    hide Tokenize, Joined, Glued, HasRun;
    var l := Compile(entries, letters);
    if i, j :| 0 <= i < j <= |tokens| && j <= i + l.longest && Joined(tokens[i..j]) in l.texts {
      TextsOf(entries, letters, Joined(tokens[i..j]));
      var k :| 0 <= k < |entries| && Stored(entries[k], Joined(tokens[i..j]), letters);
      StoredMatches(entries[k], tokens, i, j, letters);
    }
    if k :| 0 <= k < |entries| && EntryMatches(entries[k], tokens, letters) {
      MatchesStored(entries, k, tokens, letters);
    }
  }

  lemma StoredMatches(entry: string, tokens: seq<string>, i: nat, j: nat, letters: Letters)
    requires Sound(letters) && AllTokens(tokens) && i < j <= |tokens| && Stored(entry, Joined(tokens[i..j]), letters)
    ensures EntryMatches(entry, tokens, letters)
  {
    hide Tokenize, Joined, Glued;
    var words, run := Tokenize(CutKey(entry), letters), tokens[i..j];
    TokensClean(CutKey(entry), letters);
    JoinedEmpty(run);
    NoWords();
    if Joined(run) == Joined(words) {
      JoinedInjective(run, words);
      assert RunAt(tokens, words, i);
    } else {
      GluedIsToken(words);
      JoinedOne(Glued(words));
      JoinedInjective(run, [Glued(words)]);
      assert RunAt(tokens, [Glued(words)], i);
    }
  }

  lemma NoWords()
    ensures Joined([]) == "" && Glued([]) == ""
  {
  }

  lemma JoinedOne(word: string)
    ensures Joined([word]) == word
  {
  }

  lemma MatchesStored(entries: seq<string>, k: nat, tokens: seq<string>, letters: Letters)
    requires Sound(letters) && AllTokens(tokens) && k < |entries| && EntryMatches(entries[k], tokens, letters)
    ensures Matches(Compile(entries, letters), tokens)
  {
    hide Tokenize, Joined, Glued;
    var l, words := Compile(entries, letters), Tokenize(CutKey(entries[k]), letters);
    if HasRun(tokens, words) {
      var i :| RunAt(tokens, words, i);
      TextsOf(entries, letters, Joined(words));
      assert Stored(entries[k], Joined(words), letters);
      assert Joined(tokens[i..i + |words|]) in l.texts;
    } else {
      var i :| RunAt(tokens, [Glued(words)], i);
      TextsOf(entries, letters, Glued(words));
      assert Stored(entries[k], Glued(words), letters);
      JoinedOne(Glued(words));
      assert Joined(tokens[i..i + 1]) in l.texts;
    }
  }

  // ---------------------------------------------------------------------------------------
  // The cache
  // ---------------------------------------------------------------------------------------

  class Matcher {
    const letters: Letters
    const leaves: Leaves
    var cache: map<string, seq<string>>
    var entries: nat

    ghost predicate Valid()
      reads this
    {
      entries == |cache| <= CACHE_LIMIT && forall key :: key in cache ==> cache[key] == Tokenize(key, letters)
    }

    constructor (denied: seq<string>, letters: Letters)
      ensures Valid() && leaves == Compile(denied, letters) && this.letters == letters && cache == map[]
    {
      this.letters := letters;
      cache := map[];
      entries := 0;
      var l := Build(denied, letters);
      leaves := l;
    }

    /** cachedTokenize: the tokens of the cut key, whatever is cached; never more than the limit. */
    method CachedTokenize(key: string) returns (tokens: seq<string>)
      requires Valid()
      modifies `cache, `entries
      ensures Valid()
      ensures tokens == Tokenize(CutKey(key), letters)
      ensures (forall k :: k in old(cache) ==> k in cache) && |cache| <= 4096
    {
      hide Tokenize;
      var cut := CutKey(key);
      if cut in cache {
        return cache[cut];
      }
      tokens := TokenizeLoop(cut, letters);
      entries := entries + 1;
      if entries > CACHE_LIMIT {
        entries := entries - 1;
        return;
      }
      cache := cache[cut := tokens];
    }

    /** matchesKey: whether some entry of the denylist stands in the cut key. */
    method MatchesKey(key: string, ghost denied: seq<string>) returns (found: bool)
      requires Valid() && Sound(letters) && leaves == Compile(denied, letters)
      modifies `cache, `entries
      ensures Valid()
      ensures found <==> KeyMatches(denied, Tokenize(CutKey(key), letters), letters)
    {
      hide Tokenize, Matches, Compile, EntryMatches, Token;
      var tokens := CachedTokenize(key);
      TokensClean(CutKey(key), letters);
      SearchIsExact(denied, tokens, letters);
      found := MatchesKeyLoop(leaves, tokens);
    }
  }
}
