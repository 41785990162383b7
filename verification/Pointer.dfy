/** audit/patch.go: JSON Pointer paths, sections 3 and 4 of RFC 6901. */
module Pointer {
  import opened GoBytes

  /** strings.ReplaceAll for a non-empty old: leftmost occurrences, without overlap. */
  function ReplaceAll(s: string, old_: string, new_: string): string
    requires old_ != ""
  {
    if |s| >= |old_| && s[..|old_|] == old_ then new_ + ReplaceAll(s[|old_|..], old_, new_)
    else if s == "" then ""
    else [s[0]] + ReplaceAll(s[1..], old_, new_)
  }

  function EscapePointer(segment: string): string {
    ReplaceAll(ReplaceAll(segment, "~", "~0"), "/", "~1")
  }

  function UnescapePointer(segment: string): string {
    ReplaceAll(ReplaceAll(segment, "~1", "/"), "~0", "~")
  }

  /** prefix + "/" + escapePointer(key), from the root down. */
  function Render(keys: seq<string>): string {
    if keys == [] then "" else Render(keys[..|keys| - 1]) + "/" + EscapePointer(keys[|keys| - 1])
  }

  function UnescapeAll(segments: seq<string>): (r: seq<string>)
    ensures |r| == |segments| && forall i :: 0 <= i < |r| ==> r[i] == UnescapePointer(segments[i])
  {
    seq(|segments|, i requires 0 <= i < |segments| => UnescapePointer(segments[i]))
  }

  /** pathSegments. */
  function PathSegments(pointer: string): seq<string> {
    var trimmed := if pointer != "" && pointer[0] == '/' then pointer[1..] else pointer;
    UnescapeAll(Split('/', trimmed))
  }

  /** pathSegments, unescaping one segment at a time in place. */
  method PathSegmentsInPlace(pointer: string) returns (segments: array<string>)
    ensures fresh(segments) && segments[..] == PathSegments(pointer)
  {
    hide Split, UnescapePointer, Without;
    var pieces := Split('/', if pointer != "" && pointer[0] == '/' then pointer[1..] else pointer);
    segments := new string[|pieces|](i requires 0 <= i < |pieces| => pieces[i]);
    for i := 0 to |pieces|
      invariant forall j :: 0 <= j < |pieces| ==>
        segments[j] == if j < i then UnescapePointer(pieces[j]) else pieces[j]
    {
      segments[i] := UnescapePointer(segments[i]);
    }
  }

  // ---------------------------------------------------------------------------------------
  // Round trip
  // ---------------------------------------------------------------------------------------

  /** Escaping, one character at a time. */
  function EscapeChar(c: char): string {
    if c == '~' then "~0" else if c == '/' then "~1" else [c]
  }

  function EscapeEach(s: string): string {
    if s == "" then "" else EscapeChar(s[0]) + EscapeEach(s[1..])
  }

  /** The first of the two replacements: only tildes. */
  function Tildes(s: string): string {
    if s == "" then "" else (if s[0] == '~' then "~0" else [s[0]]) + Tildes(s[1..])
  }

  lemma {:induction false} TildesIsReplace(s: string)
    ensures ReplaceAll(s, "~", "~0") == Tildes(s)
  {
    if s == "" {
    } else {
      TildesIsReplace(s[1..]);
    }
  }

  lemma {:induction false} SlashesIsReplace(s: string)
    ensures ReplaceAll(Tildes(s), "/", "~1") == EscapeEach(s)
  {
    if s == "" {
    } else {
      SlashesIsReplace(s[1..]);
      var rest := Tildes(s[1..]);
      if s[0] == '~' {
        assert "~0" + rest == ['~'] + (['0'] + rest);
        ReplaceMiss('~', ['0'] + rest, "/", "~1");
        ReplaceMiss('0', rest, "/", "~1");
      } else if s[0] == '/' {
        ReplaceHit(rest, "/", "~1");
      } else {
        ReplaceMiss(s[0], rest, "/", "~1");
      }
    }
  }

  lemma ReplaceMiss(c: char, rest: string, old_: string, new_: string)
    requires old_ != "" && (c != old_[0] || (|old_| >= 2 && rest != "" && rest[0] != old_[1]))
    ensures ReplaceAll([c] + rest, old_, new_) == [c] + ReplaceAll(rest, old_, new_)
  {
    var s := [c] + rest;
    assert s[1..] == rest;
    assert |s| >= |old_| ==> s[..|old_|][0] == c && (|old_| >= 2 ==> s[..|old_|][1] == rest[0]);
  }

  lemma ReplaceHit(rest: string, old_: string, new_: string)
    requires old_ != ""
    ensures ReplaceAll(old_ + rest, old_, new_) == new_ + ReplaceAll(rest, old_, new_)
  {
    assert (old_ + rest)[..|old_|] == old_ && (old_ + rest)[|old_|..] == rest;
  }

  lemma {:induction false} UnslashIsTildes(s: string)
    ensures ReplaceAll(EscapeEach(s), "~1", "/") == Tildes(s)
  {
    if s == "" {
    } else {
      UnslashIsTildes(s[1..]);
      var rest := EscapeEach(s[1..]);
      if s[0] == '~' {
        assert "~0" + rest == ['~'] + (['0'] + rest);
        ReplaceMiss('~', ['0'] + rest, "~1", "/");
        ReplaceMiss('0', rest, "~1", "/");
      } else if s[0] == '/' {
        ReplaceHit(rest, "~1", "/");
      } else {
        ReplaceMiss(s[0], rest, "~1", "/");
      }
    }
  }

  lemma {:induction false} UntildeIsIdentity(s: string)
    ensures ReplaceAll(Tildes(s), "~0", "~") == s
  {
    if s == "" {
    } else {
      UntildeIsIdentity(s[1..]);
      var rest := Tildes(s[1..]);
      if s[0] == '~' {
        ReplaceHit(rest, "~0", "~");
      } else {
        ReplaceMiss(s[0], rest, "~0", "~");
      }
      assert s == [s[0]] + s[1..];
    }
  }

  lemma {:induction false} EscapedHasNoSlash(s: string)
    ensures Without('/', EscapeEach(s))
  {
    if s == "" {
    } else {
      EscapedHasNoSlash(s[1..]);
    }
  }

  /** Every key survives escaping, tildes and slashes included, and never holds a slash. */
  lemma EscapeRoundTrip(s: string)
    ensures UnescapePointer(EscapePointer(s)) == s
    ensures Without('/', EscapePointer(s))
  {
    TildesIsReplace(s);
    SlashesIsReplace(s);
    UnslashIsTildes(s);
    UntildeIsIdentity(s);
    EscapedHasNoSlash(s);
  }

  lemma {:induction false} RenderIsJoin(keys: seq<string>)
    requires keys != []
    ensures Render(keys) == "/" + Join('/', Escaped(keys))
  {
    hide EscapePointer;
    var front := keys[..|keys| - 1];
    if front == [] {
      assert Render(front) == "";
      assert Escaped(keys) == [EscapePointer(keys[0])];
    } else {
      hide Join;
      RenderIsJoin(front);
      assert Escaped(keys) == Escaped(front) + [EscapePointer(keys[|keys| - 1])];
      JoinSnoc('/', Escaped(front), EscapePointer(keys[|keys| - 1]));
    }
  }

  function Escaped(keys: seq<string>): (r: seq<string>)
    ensures |r| == |keys| && forall i :: 0 <= i < |r| ==> r[i] == EscapePointer(keys[i])
  {
    seq(|keys|, i requires 0 <= i < |keys| => EscapePointer(keys[i]))
  }

  /** A path names its keys: every non-empty key list is read back from the path built for it,
      empty keys and keys holding "~" or "/" included. */
  lemma PointerRoundTrip(keys: seq<string>)
    requires keys != []
    ensures PathSegments(Render(keys)) == keys
  {
    RenderIsJoin(keys);
    forall i | 0 <= i < |keys|
      ensures Without('/', Escaped(keys)[i]) && UnescapePointer(Escaped(keys)[i]) == keys[i]
    {
      EscapeRoundTrip(keys[i]);
    }
    assert Render(keys)[1..] == Join('/', Escaped(keys));
    SplitJoin('/', Escaped(keys));
  }
}
