/**
 redact/tokenize.go: a key as lowercase word tokens. The letter tests and the lowercase map of
 Go's unicode package are parameters.
 */
module Tokens {
  import opened GoBytes

  datatype Letters = Letters(upper: char -> bool, lower: char -> bool, fold: char -> char)

  /** Lowercasing makes no space out of another character. */
  ghost predicate Sound(letters: Letters) {
    forall c :: c != ' ' ==> letters.fold(c) != ' '
  }

  predicate IsSeparator(c: char) {
    c == '_' || c == '-' || c == '.' || c == ' '
  }

  // ---------------------------------------------------------------------------------------
  // Separators
  // ---------------------------------------------------------------------------------------

  /** The scan of a key: the segments that ended, and the one under way. */
  datatype Scan = Scan(segments: seq<string>, cur: string)

  function ScanOne(s: Scan, c: char): Scan {
    if IsSeparator(c) then Scan(Ended(s), "") else Scan(s.segments, s.cur + [c])
  }

  function Ended(s: Scan): seq<string> {
    if s.cur == "" then s.segments else s.segments + [s.cur]
  }

  function ScanKey(key: string): Scan {
    if key == "" then Scan([], "") else ScanOne(ScanKey(key[..|key| - 1]), key[|key| - 1])
  }

  function Segments(key: string): seq<string> {
    Ended(ScanKey(key))
  }

  /** A separator between two keys separates their segments. */
  lemma {:induction false} ScanJoined(a: string, sep: char, b: string)
    requires IsSeparator(sep)
    ensures ScanKey(a + [sep] + b) == Scan(Segments(a) + ScanKey(b).segments, ScanKey(b).cur)
  {
    var key := a + [sep] + b;
    if b == "" {
      assert key[..|key| - 1] == a;
    } else {
      ScanJoined(a, sep, b[..|b| - 1]);
      assert key[..|key| - 1] == a + [sep] + b[..|b| - 1];
    }
  }

  lemma {:induction false} SegmentsClean(key: string)
    ensures forall k :: 0 <= k < |ScanKey(key).segments| ==> ScanKey(key).segments[k] != "" && NoSeparator(ScanKey(key).segments[k])
    ensures NoSeparator(ScanKey(key).cur)
  {
    if key == "" {
    } else {
      SegmentsClean(key[..|key| - 1]);
    }
  }

  predicate NoSeparator(s: string) {
    forall k :: 0 <= k < |s| ==> !IsSeparator(s[k])
  }

  lemma ScanSnoc(key: string, c: char)
    ensures ScanKey("") == Scan([], "")
    ensures ScanKey(key + [c]) == ScanOne(ScanKey(key), c)
  {
    assert (key + [c])[..|key|] == key;
  }

  /** A key without separators is one segment. */
  lemma {:induction false} NoSeparatorScan(key: string)
    requires NoSeparator(key)
    ensures ScanKey(key) == Scan([], key)
  {
    hide ScanKey;
    ScanSnoc("", 'a');
    if key == "" {
    } else {
      var front, c := key[..|key| - 1], key[|key| - 1];
      NoSeparatorScan(front);
      ScanSnoc(front, c);
      assert key == front + [c];
    }
  }

  // ---------------------------------------------------------------------------------------
  // Camel case
  // ---------------------------------------------------------------------------------------

  /** A word starts at i: lower to upper, or the last of an upper run that a lower follows. */
  predicate Boundary(seg: string, i: nat, letters: Letters)
    requires 0 < i < |seg|
  {
    letters.upper(seg[i]) &&
    (!letters.upper(seg[i - 1]) || (i + 1 < |seg| && letters.lower(seg[i + 1])))
  }

  /** The pieces that end before i, and where the next one starts. */
  datatype Cut = Cut(pieces: seq<string>, start: nat)

  function CutTo(seg: string, i: nat, letters: Letters): (c: Cut)
    requires 1 <= i <= |seg|
    ensures c.start < i
    decreases i
  {
    if i == 1 then Cut([], 0)
    else
      var before := CutTo(seg, i - 1, letters);
      if Boundary(seg, i - 1, letters) then Cut(before.pieces + [seg[before.start..i - 1]], i - 1) else before
  }

  function SplitCamel(seg: string, letters: Letters): seq<string> {
    if seg == "" then []
    else
      var c := CutTo(seg, |seg|, letters);
      c.pieces + [seg[c.start..]]
  }

  function Glued(pieces: seq<string>): string {
    if pieces == [] then "" else Glued(pieces[..|pieces| - 1]) + pieces[|pieces| - 1]
  }

  lemma GluedSnoc(pieces: seq<string>, last: string)
    ensures Glued(pieces + [last]) == Glued(pieces) + last
  {
    assert (pieces + [last])[..|pieces|] == pieces;
  }

  predicate NonEmpty(pieces: seq<string>) {
    forall k :: 0 <= k < |pieces| ==> pieces[k] != ""
  }

  lemma {:induction false} CutLosesNothing(seg: string, i: nat, letters: Letters)
    requires 1 <= i <= |seg|
    ensures Glued(CutTo(seg, i, letters).pieces) == seg[..CutTo(seg, i, letters).start]
    ensures NonEmpty(CutTo(seg, i, letters).pieces)
    decreases i
  {
    hide Boundary;
    if i > 1 {
      CutLosesNothing(seg, i - 1, letters);
      var before := CutTo(seg, i - 1, letters);
      GluedSnoc(before.pieces, seg[before.start..i - 1]);
      assert seg[..before.start] + seg[before.start..i - 1] == seg[..i - 1];
    }
  }

  /** The pieces are the segment again, and none is empty. */
  lemma CamelLosesNothing(seg: string, letters: Letters)
    ensures Glued(SplitCamel(seg, letters)) == seg && NonEmpty(SplitCamel(seg, letters))
  {
    if seg != "" {
      hide CutTo;
      CutLosesNothing(seg, |seg|, letters);
      var c := CutTo(seg, |seg|, letters);
      GluedSnoc(c.pieces, seg[c.start..]);
      assert seg[..c.start] + seg[c.start..] == seg;
    }
  }

  /** Some piece starts at place p of what the pieces are together. */
  ghost predicate StartsAt(pieces: seq<string>, p: nat) {
    exists j :: 0 <= j < |pieces| && |Glued(pieces[..j])| == p
  }

  lemma StartsSnoc(pieces: seq<string>, last: string, p: nat)
    ensures StartsAt(pieces + [last], p) <==> StartsAt(pieces, p) || |Glued(pieces)| == p
  {
    hide Glued;
    var all := pieces + [last];
    assert all[..|pieces|] == pieces;
    assert forall j :: 0 <= j <= |pieces| ==> all[..j] == pieces[..j];
    if j :| 0 <= j < |pieces| && |Glued(pieces[..j])| == p {
      assert |Glued(all[..j])| == p;
    }
  }

  lemma {:induction false} StartsInside(pieces: seq<string>, p: nat)
    requires NonEmpty(pieces) && StartsAt(pieces, p)
    ensures p < |Glued(pieces)|
  {
    if pieces == [] {
    } else {
      hide StartsAt;
      var front, last := pieces[..|pieces| - 1], pieces[|pieces| - 1];
      assert pieces == front + [last];
      StartsSnoc(front, last, p);
      if StartsAt(front, p) {
        StartsInside(front, p);
      }
    }
  }

  lemma {:induction false} CutStarts(seg: string, i: nat, letters: Letters, p: nat)
    requires 1 <= i <= |seg| && 0 < p < i
    ensures var c := CutTo(seg, i, letters);
      p == c.start || StartsAt(c.pieces, p) <==> Boundary(seg, p, letters)
    decreases i
  {
    hide Boundary, StartsAt, Glued, NonEmpty;
    var before := CutTo(seg, i - 1, letters);
    CutLosesNothing(seg, i - 1, letters);
    StartsSnoc(before.pieces, seg[before.start..i - 1], p);
    if p < i - 1 {
      CutStarts(seg, i - 1, letters, p);
    } else if StartsAt(before.pieces, p) {
      StartsInside(before.pieces, p);
    }
  }

  /** Where the pieces start: at an upper-case letter behind one that is not, and at the last of
      several upper-case letters when a lower-case one follows. */
  lemma CamelStarts(seg: string, letters: Letters, p: nat)
    requires 0 < p < |seg|
    ensures StartsAt(SplitCamel(seg, letters), p) <==>
      letters.upper(seg[p]) && (!letters.upper(seg[p - 1]) || (p + 1 < |seg| && letters.lower(seg[p + 1])))
  {
    hide CutTo, Glued, StartsAt;
    CutStarts(seg, |seg|, letters, p);
    CutLosesNothing(seg, |seg|, letters);
    var c := CutTo(seg, |seg|, letters);
    StartsSnoc(c.pieces, seg[c.start..], p);
  }

  /** splitCamel as it runs. */
  method SplitCamelLoop(seg: string, letters: Letters) returns (tokens: seq<string>)
    ensures tokens == SplitCamel(seg, letters)
  {
    if |seg| == 0 {
      return [];
    }
    tokens := [];
    var start := 0;
    for i := 1 to |seg|
      invariant CutTo(seg, i, letters) == Cut(tokens, start)
    {
      var prev, cur := seg[i - 1], seg[i];
      var boundary := !letters.upper(prev) && letters.upper(cur);
      if !boundary && letters.upper(prev) && letters.upper(cur) && i + 1 < |seg| && letters.lower(seg[i + 1]) {
        boundary := true;
      }
      if boundary {
        tokens := tokens + [seg[start..i]];
        start := i;
      }
    }
    tokens := tokens + [seg[start..]];
  }

  // ---------------------------------------------------------------------------------------
  // tokenize
  // ---------------------------------------------------------------------------------------

  function Lower(s: string, letters: Letters): (r: string)
    ensures |r| == |s| && forall k :: 0 <= k < |r| ==> r[k] == letters.fold(s[k])
  {
    seq(|s|, k requires 0 <= k < |s| => letters.fold(s[k]))
  }

  function LowerAll(pieces: seq<string>, letters: Letters): (r: seq<string>)
    ensures |r| == |pieces| && forall k :: 0 <= k < |r| ==> r[k] == Lower(pieces[k], letters)
  {
    seq(|pieces|, k requires 0 <= k < |pieces| => Lower(pieces[k], letters))
  }

  function Words(segments: seq<string>, letters: Letters): seq<string> {
    if segments == [] then []
    else Words(segments[..|segments| - 1], letters) + SplitCamel(segments[|segments| - 1], letters)
  }

  function Tokenize(key: string, letters: Letters): seq<string> {
    LowerAll(Words(Segments(key), letters), letters)
  }

  /** The first loop of tokenize: a key cut at its separators. */
  method SegmentsLoop(key: string) returns (segments: seq<string>)
    ensures segments == Segments(key)
  {
    hide IsSeparator;
    segments := [];
    var cur := "";
    for k := 0 to |key|
      invariant ScanKey(key[..k]) == Scan(segments, cur)
    {
      assert key[..k + 1][..k] == key[..k];
      if IsSeparator(key[k]) {
        if |cur| > 0 {
          segments := segments + [cur];
          cur := "";
        }
        continue;
      }
      cur := cur + [key[k]];
    }
    assert key[..|key|] == key;
    if |cur| > 0 {
      segments := segments + [cur];
    }
  }

  /** The last: every token lowered in place. */
  method LowerInPlace(tokens: array<string>, letters: Letters)
    modifies tokens
    ensures tokens[..] == LowerAll(old(tokens[..]), letters)
  {
    hide Lower;
    for k := 0 to tokens.Length
      invariant forall j :: 0 <= j < tokens.Length ==>
        tokens[j] == if j < k then Lower(old(tokens[j]), letters) else old(tokens[j])
    {
      tokens[k] := Lower(tokens[k], letters);
    }
  }

  method TokenizeLoop(key: string, letters: Letters) returns (tokens: seq<string>)
    ensures tokens == Tokenize(key, letters)
  {
    hide SplitCamel, Segments, LowerAll;
    var segments := SegmentsLoop(key);
    tokens := [];
    for k := 0 to |segments|
      invariant tokens == Words(segments[..k], letters)
    {
      assert segments[..k + 1][..k] == segments[..k];
      var words := SplitCamelLoop(segments[k], letters);
      tokens := tokens + words;
    }
    assert segments[..|segments|] == segments;
    var lowered := new string[|tokens|](k requires 0 <= k < |tokens| => tokens[k]);
    assert lowered[..] == tokens;
    LowerInPlace(lowered, letters);
    tokens := lowered[..];
  }

  lemma {:induction false} WordsConcat(a: seq<string>, b: seq<string>, letters: Letters)
    ensures Words(a + b, letters) == Words(a, letters) + Words(b, letters)
  {
    hide SplitCamel;
    if b == [] {
      assert a + b == a;
    } else {
      WordsConcat(a, b[..|b| - 1], letters);
      assert (a + b)[..|a + b| - 1] == a + b[..|b| - 1];
    }
  }

  /** The four separators cut a key; without one its tokens are its pieces, lowered. */
  lemma TokensOfOne(key: string, letters: Letters)
    requires forall c :: c in key ==> c !in "_-. "
    ensures Tokenize(key, letters) == LowerAll(SplitCamel(key, letters), letters)
  {
    hide SplitCamel, ScanKey, Words;
    assert forall k :: 0 <= k < |key| ==> key[k] in key;
    NoSeparatorScan(key);
    WordsOfOne(key, letters);
    assert Segments(key) == if key == "" then [] else [key];
  }

  lemma WordsOfOne(segment: string, letters: Letters)
    ensures Words([segment], letters) == SplitCamel(segment, letters)
    ensures Words([], letters) == [] && SplitCamel("", letters) == []
  {
    assert [segment][..0] == [];
  }

  /** The tokens of two keys with a separator between them are the tokens of the one and then
      of the other. */
  lemma TokensJoined(a: string, sep: char, b: string, letters: Letters)
    requires sep in "_-. "
    ensures Tokenize(a + [sep] + b, letters) == Tokenize(a, letters) + Tokenize(b, letters)
  {
    hide Words, ScanKey;
    ScanJoined(a, sep, b);
    assert Segments(a + [sep] + b) == Segments(a) + Segments(b);
    WordsConcat(Segments(a), Segments(b), letters);
  }

  predicate Token(t: string) {
    t != "" && Without(' ', t)
  }

  lemma {:induction false} WordsClean(segments: seq<string>, letters: Letters)
    requires forall k :: 0 <= k < |segments| ==> NoSeparator(segments[k])
    ensures forall k :: 0 <= k < |Words(segments, letters)| ==> Token(Words(segments, letters)[k])
  {
    if segments == [] {
    } else {
      var last := segments[|segments| - 1];
      hide SplitCamel;
      WordsClean(segments[..|segments| - 1], letters);
      CamelLosesNothing(last, letters);
      PiecesClean(SplitCamel(last, letters));
    }
  }

  lemma {:induction false} PiecesClean(pieces: seq<string>)
    requires NoSeparator(Glued(pieces))
    ensures forall k :: 0 <= k < |pieces| ==> NoSeparator(pieces[k])
  {
    if pieces == [] {
    } else {
      var front, last := pieces[..|pieces| - 1], pieces[|pieces| - 1];
      var all := Glued(pieces);
      assert forall k :: 0 <= k < |Glued(front)| ==> Glued(front)[k] == all[k];
      assert forall k :: 0 <= k < |last| ==> last[k] == all[|Glued(front)| + k];
      PiecesClean(front);
    }
  }

  /** No token is empty, and none holds a space. */
  lemma TokensClean(key: string, letters: Letters)
    requires Sound(letters)
    ensures forall k :: 0 <= k < |Tokenize(key, letters)| ==> Token(Tokenize(key, letters)[k])
  {
    hide Words, ScanKey;
    SegmentsClean(key);
    WordsClean(Segments(key), letters);
    var words := Words(Segments(key), letters);
    forall k | 0 <= k < |words|
      ensures Token(Lower(words[k], letters))
    {
      assert Token(words[k]);
    }
  }
}
