/**
 redact/redact.go: the redactor as it runs, and DeniesPath, the answer it gives to a caller that
 must decide before a value reaches an event.
 */
module Redactor {
  import opened GoBytes
  import opened Tree
  import opened Tokens
  import opened KeyMatch
  import opened Redaction

  class Walker {
    const rules: Rules
    const matcher: Matcher

    ghost predicate Valid()
      reads matcher
    {
      && matcher.Valid() && Tokens.Sound(rules.letters) && matcher.letters == rules.letters
      && matcher.leaves == Compile(rules.entries, rules.letters)
    }

    constructor (rules: Rules)
      requires Tokens.Sound(rules.letters)
      ensures Valid() && this.rules == rules && fresh(matcher)
    {
      this.rules := rules;
      var m := new Matcher(rules.entries, rules.letters);
      matcher := m;
    }

    /** matchesLeafGlob. */
    method MatchesLeafGlob(key: string) returns (found: bool)
      ensures found <==> GlobDenied(rules, key)
    {
      var lower := Lower(key, rules.letters);
      for k := 0 to |rules.globs|
        invariant forall j :: 0 <= j < k ==> !rules.glob(rules.globs[j], lower)
      {
        if rules.glob(rules.globs[k], lower) {
          return true;
        }
      }
      return false;
    }

    /** segMatcher.match. */
    method MatchSegment(m: SegMatcher, name: string) returns (found: bool)
      ensures found <==> SegMatches(rules, m, name)
    {
      match m {
        case Glob(pattern) => return rules.glob(pattern, Lower(name, rules.letters));
        case Words(needle) =>
          var hay := TokenizeLoop(name, rules.letters);
          found := ContainsRun(hay, needle);
      }
    }

    /** matchesPath. */
    method MatchesPath(names: seq<string>) returns (found: bool)
      ensures found <==> PathDenied(rules, names)
    {
      hide SegMatches;
      for k := 0 to |rules.paths|
        invariant forall j :: 0 <= j < k ==> !PathMatches(rules, rules.paths[j], names)
      {
        var segs := rules.paths[k];
        if |segs| != |names| {
          continue;
        }
        var matched := true;
        for i := 0 to |segs|
          invariant matched
          invariant forall j :: 0 <= j < i ==> SegMatches(rules, segs[j], names[j])
        {
          var one := MatchSegment(segs[i], names[i]);
          if !one {
            matched := false;
            break;
          }
        }
        if matched {
          assert PathMatches(rules, segs, names);
          return true;
        }
      }
      return false;
    }

    /** The test of applyMap, in its order: the kept paths first. */
    method IsMasked(names: seq<string>) returns (masked: bool)
      requires Valid() && names != []
      modifies matcher
      ensures Valid() && (masked <==> Masks(rules, names))
    {
      hide GlobDenied, PathDenied, EntryMatches, Compile, Tokens.Sound;
      if Keeps(rules, names) {
        return false;
      }
      masked := matcher.MatchesKey(names[|names| - 1], rules.entries);
      if !masked {
        masked := MatchesLeafGlob(names[|names| - 1]);
      }
      if !masked {
        masked := MatchesPath(names);
      }
    }

    /** Apply, after the transforms. */
    method Apply(event: Value) returns (out: Value)
      requires Valid() && event.Obj?
      modifies matcher
      ensures Valid() && out == Applied(rules, event)
    {
      if rules.disabled {
        return event;
      }
      out := MaskMap(event, [], 0);
    }

    /** applyMap: the keys in any order, each on the path while it is handled. */
    method MaskMap(m: Value, names: seq<string>, depth: nat) returns (out: Value)
      requires Valid() && m.Obj?
      modifies matcher
      ensures Valid() && out == ApplyMap(rules, m, names, depth)
      decreases m, 1
    {
      hide Masks, ApplyMap, ApplyValue, MaskValue, Valid;
      ghost var want := ApplyMap(rules, m, names, depth).fields;
      var path := names;
      var fields := m.fields;
      var rest := m.fields.Keys;
      while rest != {}
        invariant Valid() && path == names && rest <= m.fields.Keys && fields.Keys == m.fields.Keys
        invariant forall k :: k in rest ==> fields[k] == m.fields[k]
        invariant forall k :: k in m.fields.Keys - rest ==> fields[k] == want[k]
        decreases |rest|
      {
        var k :| k in rest;
        path := path + [k];
        EntryOf(rules, m, k, names, depth);
        var masked := IsMasked(path);
        if masked {
          fields := fields[k := MaskValue(rules, m.fields[k])];
        } else {
          var value := MaskInside(m.fields[k], path, depth);
          fields := fields[k := value];
        }
        path := path[..|path| - 1];
        rest := rest - {k};
      }
      out := Obj(fields);
    }

    /** applyValue. */
    method MaskInside(v: Value, path: seq<string>, depth: nat) returns (out: Value)
      requires Valid()
      modifies matcher
      ensures Valid() && out == ApplyValue(rules, v, path, depth)
      decreases v, 2
    {
      hide ApplyMap, ApplyItems, Scanned, Valid;
      match v {
        case Obj(_) =>
          if depth + 1 > rules.maxDepth {
            return TooDeep();
          }
          out := MaskMap(v, path, depth + 1);
        case Arr(items) =>
          if depth + 1 > rules.maxDepth {
            return TooDeep();
          }
          out := MaskItems(v, path, depth + 1);
        case _ =>
          out := Scanned(rules, v, path);
      }
    }

    method MaskItems(v: Value, path: seq<string>, depth: nat) returns (out: Value)
      requires Valid() && v.Arr?
      modifies matcher
      ensures Valid() && out == ApplyItems(rules, v, path, depth)
      decreases v, 1
    {
      hide ApplyValue, Valid;
      var items: seq<Value> := [];
      for i := 0 to |v.items|
        invariant Valid() && |items| == i
        invariant forall j :: 0 <= j < i ==> items[j] == ApplyValue(rules, v.items[j], path, depth)
      {
        var item := MaskInside(v.items[i], path, depth);
        items := items + [item];
      }
      out := Arr(items);
    }

    /** DeniesPath. */
    method DeniesPathLoop(path: seq<string>) returns (denied: bool)
      requires Valid()
      modifies matcher
      ensures Valid() && (denied <==> DeniesPath(rules, path))
    {
      hide GlobDenied, PathDenied, EntryMatches, Compile, Tokens.Sound;
      if Keeps(rules, path) {
        return false;
      }
      denied := matcher.MatchesKey(Full(path), rules.entries);
      if !denied {
        denied := MatchesLeafGlob(Full(path));
      }
      if !denied {
        denied := MatchesPath(path);
      }
    }
  }

  lemma EntryOf(r: Rules, m: Value, k: string, names: seq<string>, depth: nat)
    requires m.Obj? && k in m.fields
    ensures ApplyMap(r, m, names, depth).fields[k] ==
      if Masks(r, names + [k]) then MaskValue(r, m.fields[k]) else ApplyValue(r, m.fields[k], names + [k], depth)
  {
  }

  // ---------------------------------------------------------------------------------------
  // DeniesPath
  // ---------------------------------------------------------------------------------------

  /** The joined path is looked up as if it were one key. */
  ghost predicate DeniesPath(r: Rules, path: seq<string>) {
    !Keeps(r, path) && (KeyDenied(r, Full(path)) || GlobDenied(r, Full(path)) || PathDenied(r, path))
  }
  /** It never denies a kept path. */
  lemma KeptIsNotDenied(r: Rules, path: seq<string>)
    requires path != []
    ensures Join('.', path) in r.kept ==> !DeniesPath(r, path)
    ensures Join('.', path) !in r.kept ==>
      (DeniesPath(r, path) <==>
       KeyDenied(r, Join('.', path)) || GlobDenied(r, Join('.', path)) || PathDenied(r, path))
  {
    hide KeyDenied, GlobDenied, PathDenied;
  }
}
