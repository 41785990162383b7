/**
 The byte-level operations the audit journal is built from: searching, hex text, and
 splitting at newlines. A Go byte is modelled as a char. No lemma needs the bound of 256,
 so none imposes it.
 */
module GoBytes {
  type bytes = string

  datatype Option<+T> = None | Some(value: T)

  const NEWLINE: char := '\n'

  predicate NoNewline(s: bytes) {
    Without(NEWLINE, s)
  }

  // ---------------------------------------------------------------------------------------
  // bytes.Index
  // ---------------------------------------------------------------------------------------

  predicate Occurs(line: bytes, pat: bytes, at: int) {
    0 <= at && at + |pat| <= |line| && forall j :: 0 <= j < |pat| ==> line[at + j] == pat[j]
  }

  /** The least position where pat occurs at or after from, or -1. */
  function IndexFrom(line: bytes, pat: bytes, from: nat): (r: int)
    ensures r == -1 || (from <= r && Occurs(line, pat, r))
    ensures r == -1 ==> forall i :: from <= i ==> !Occurs(line, pat, i)
    ensures r != -1 ==> forall i :: from <= i < r ==> !Occurs(line, pat, i)
    decreases |line| - from
  {
    if from + |pat| > |line| then -1
    else if Occurs(line, pat, from) then from
    else if from == |line| then -1
    else IndexFrom(line, pat, from + 1)
  }

  function Index(line: bytes, pat: bytes): (r: int)
    ensures r == -1 <==> forall i :: !Occurs(line, pat, i)
    ensures r != -1 ==> Occurs(line, pat, r) && forall i :: i < r ==> !Occurs(line, pat, i)
  {
    IndexFrom(line, pat, 0)
  }

  // ---------------------------------------------------------------------------------------
  // encoding/hex
  // ---------------------------------------------------------------------------------------

  type Digest = d: seq<int> | |d| == 32 && forall i :: 0 <= i < |d| ==> 0 <= d[i] < 256
    witness seq(32, _ => 0)

  predicate IsHex(c: char) {
    '0' <= c <= '9' || 'a' <= c <= 'f' || 'A' <= c <= 'F'
  }

  predicate AllHex(s: bytes) {
    forall i :: 0 <= i < |s| ==> IsHex(s[i])
  }

  function HexDigit(n: int): (c: char)
    requires 0 <= n < 16
    ensures IsHex(c)
  {
    if n < 10 then ('0' as int + n) as char else ('a' as int + n - 10) as char
  }

  function HexEncode(d: seq<int>): (s: bytes)
    requires forall i :: 0 <= i < |d| ==> 0 <= d[i] < 256
    ensures |s| == 2 * |d| && AllHex(s)
  {
    if d == [] then "" else [HexDigit(d[0] / 16), HexDigit(d[0] % 16)] + HexEncode(d[1..])
  }

  lemma {:induction false} HexEncodeInjective(a: seq<int>, b: seq<int>)
    requires forall i :: 0 <= i < |a| ==> 0 <= a[i] < 256
    requires forall i :: 0 <= i < |b| ==> 0 <= b[i] < 256
    requires HexEncode(a) == HexEncode(b)
    ensures a == b
  {
    assert |HexEncode(a)| == 2 * |a| && |HexEncode(b)| == 2 * |b|;
    if a == [] {
    } else {
      var x, y := HexEncode(a), HexEncode(b);
      assert x[0] == y[0] && x[1] == y[1];
      assert a[0] / 16 == b[0] / 16 && a[0] % 16 == b[0] % 16;
      assert x[2..] == HexEncode(a[1..]) && y[2..] == HexEncode(b[1..]);
      HexEncodeInjective(a[1..], b[1..]);
      assert a == [a[0]] + a[1..] && b == [b[0]] + b[1..];
    }
  }

  // ---------------------------------------------------------------------------------------
  // strings.Split and bytes.Split at one separator
  // ---------------------------------------------------------------------------------------

  predicate Without(sep: char, s: bytes) {
    forall i :: 0 <= i < |s| ==> s[i] != sep
  }

  /** The pieces of [c] + data, from the pieces of data. */
  function Push(sep: char, c: char, pieces: seq<bytes>): seq<bytes>
    requires |pieces| >= 1
  {
    if c == sep then [[]] + pieces else [[c] + pieces[0]] + pieces[1..]
  }

  /** Split: always at least one piece, and no piece holds the separator. */
  function Split(sep: char, data: bytes): (r: seq<bytes>)
    ensures |r| >= 1
    ensures forall i :: 0 <= i < |r| ==> Without(sep, r[i])
  {
    if data == [] then [[]] else Push(sep, data[0], Split(sep, data[1..]))
  }

  function Join(sep: char, pieces: seq<bytes>): bytes
    requires |pieces| >= 1
  {
    if |pieces| == 1 then pieces[0] else pieces[0] + [sep] + Join(sep, pieces[1..])
  }

  lemma {:induction false} JoinSnoc(sep: char, pieces: seq<string>, last: string)
    requires |pieces| >= 1
    ensures Join(sep, pieces + [last]) == Join(sep, pieces) + [sep] + last
  {
    if |pieces| > 1 {
      JoinSnoc(sep, pieces[1..], last);
      assert (pieces + [last])[1..] == pieces[1..] + [last];
    } else {
      assert (pieces + [last])[1..] == [last];
    }
  }

  lemma {:induction false} JoinSplit(sep: char, data: bytes)
    ensures Join(sep, Split(sep, data)) == data
  {
    if data == [] {
    } else {
      var rest := Split(sep, data[1..]);
      JoinSplit(sep, data[1..]);
      if data[0] != sep && |rest| > 1 {
        assert Split(sep, data)[1..] == rest[1..];
      } else if data[0] == sep {
        assert Split(sep, data)[1..] == rest;
      }
    }
  }

  lemma {:induction false} SplitJoin(sep: char, pieces: seq<bytes>)
    requires |pieces| >= 1 && forall i :: 0 <= i < |pieces| ==> Without(sep, pieces[i])
    ensures Split(sep, Join(sep, pieces)) == pieces
  {
    SplitWithout(sep, pieces[0]);
    if |pieces| <= 1 {
    } else {
      SplitJoin(sep, pieces[1..]);
      var rest := [sep] + Join(sep, pieces[1..]);
      assert rest[1..] == Join(sep, pieces[1..]);
      assert Join(sep, pieces) == pieces[0] + rest;
      SplitConcat(sep, pieces[0], rest);
      assert pieces[0] + [] == pieces[0];
    }
  }

  /** The last piece of a is glued to the first piece of b. */
  function Glue(a: seq<bytes>, b: seq<bytes>): seq<bytes>
    requires |a| >= 1 && |b| >= 1
  {
    a[..|a| - 1] + [a[|a| - 1] + b[0]] + b[1..]
  }

  lemma GluePush(sep: char, c: char, a: seq<bytes>, b: seq<bytes>)
    requires |a| >= 1 && |b| >= 1
    ensures Glue(Push(sep, c, a), b) == Push(sep, c, Glue(a, b))
  {
    if c != sep && |a| == 1 {
      assert [c] + (a[0] + b[0]) == ([c] + a[0]) + b[0];
    }
  }

  lemma {:induction false} SplitConcat(sep: char, a: bytes, b: bytes)
    ensures Split(sep, a + b) == Glue(Split(sep, a), Split(sep, b))
  {
    if a == [] {
      assert a + b == b;
      assert [] + Split(sep, b)[0] == Split(sep, b)[0];
    } else {
      SplitConcat(sep, a[1..], b);
      assert (a + b)[1..] == a[1..] + b;
      GluePush(sep, a[0], Split(sep, a[1..]), Split(sep, b));
    }
  }

  lemma {:induction false} SplitWithout(sep: char, s: bytes)
    requires Without(sep, s)
    ensures Split(sep, s) == [s]
  {
    if s == [] {
    } else {
      SplitWithout(sep, s[1..]);
      assert [s[0]] + s[1..] == s;
    }
  }

  lemma SplitEndsInSep(sep: char, d: bytes)
    ensures Split(sep, d + [sep]) == Split(sep, d) + [[]]
  {
    SplitConcat(sep, d, [sep]);
    assert Split(sep, [sep]) == [[]] + Split(sep, []);
    var pieces := Split(sep, d);
    assert pieces[|pieces| - 1] + [] == pieces[|pieces| - 1];
  }

  lemma LastPiece(sep: char, data: bytes)
    requires data != []
    ensures Split(sep, data)[|Split(sep, data)| - 1] == [] <==> data[|data| - 1] == sep
  {
    var n := |data| - 1;
    assert data == data[..n] + [data[n]];
    if data[n] == sep {
      SplitEndsInSep(sep, data[..n]);
    } else {
      SplitConcat(sep, data[..n], [data[n]]);
      SplitWithout(sep, [data[n]]);
    }
  }
}
