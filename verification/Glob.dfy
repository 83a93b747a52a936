/** The glob matcher of CI grants (internal/store/ci_grants.go, wildcardMatch). */
module Glob {
  const STAR := '*'

  /** What a pattern means: a star stands for any string, every other character for itself. */
  predicate Matches(pattern: string, value: string) {
    if pattern == "" then value == ""
    else if pattern[0] == STAR then exists i :: 0 <= i <= |value| && Matches(pattern[1..], value[i..])
    else value != "" && value[0] == pattern[0] && Matches(pattern[1..], value[1..])
  }

  predicate HasPrefix(s: string, prefix: string) {
    prefix <= s
  }

  predicate HasSuffix(s: string, suffix: string) {
    |suffix| <= |s| && s[|s| - |suffix|..] == suffix
  }

  predicate OccursAt(s: string, sub: string, i: nat) {
    i + |sub| <= |s| && s[i..i + |sub|] == sub
  }

  /** strings.Index: the first occurrence, or -1. */
  method Index(s: string, sub: string) returns (idx: int)
    ensures -1 <= idx
    ensures idx >= 0 ==> OccursAt(s, sub, idx) && forall j: nat :: j < idx ==> !OccursAt(s, sub, j)
    ensures idx < 0 ==> forall j: nat :: !OccursAt(s, sub, j)
  {
    idx := 0;
    while idx + |sub| <= |s|
      invariant 0 <= idx
      invariant forall j: nat :: j < idx ==> !OccursAt(s, sub, j)
    {
      if s[idx..idx + |sub|] == sub {
        return;
      }
      idx := idx + 1;
    }
    idx := -1;
  }

  /** strings.Split on the star. */
  function Split(pattern: string): (parts: seq<string>)
    ensures |parts| >= 1
  {
    if pattern == "" then [""]
    else
      var parts := Split(pattern[1..]);
      if pattern[0] == STAR then [""] + parts else [[pattern[0]] + parts[0]] + parts[1..]
  }

  /** The parts in this order, the first at the start, the last at the end, any text between them. */
  predicate Anchored(parts: seq<string>, value: string)
    requires |parts| >= 1
    decreases |parts|, 0
  {
    if |parts| == 1 then value == parts[0]
    else HasPrefix(value, parts[0]) && Floating(parts[1..], value[|parts[0]|..])
  }

  /** The same with any text in front. */
  predicate Floating(parts: seq<string>, value: string)
    requires |parts| >= 1
    decreases |parts|, 1
  {
    exists i :: 0 <= i <= |value| && Anchored(parts, value[i..])
  }

  lemma {:induction false} MatchesIsAnchored(pattern: string, value: string)
    ensures Matches(pattern, value) <==> Anchored(Split(pattern), value)
    decreases |pattern|
  {
    if pattern != "" {
      var rest := pattern[1..];
      var parts := Split(rest);
      if pattern[0] == STAR {
        forall i | 0 <= i <= |value|
          ensures Matches(rest, value[i..]) <==> Anchored(parts, value[i..])
        {
          MatchesIsAnchored(rest, value[i..]);
        }
        assert Split(pattern)[1..] == parts;
        assert value[0..] == value;
      } else {
        AnchoredBehindChar(pattern[0], parts, value);
        if value != "" {
          MatchesIsAnchored(rest, value[1..]);
        }
      }
    }
  }

  lemma AnchoredBehindChar(c: char, parts: seq<string>, value: string)
    requires |parts| >= 1
    ensures Anchored([[c] + parts[0]] + parts[1..], value)
            <==> value != "" && value[0] == c && Anchored(parts, value[1..])
  {
    var longer := [[c] + parts[0]] + parts[1..];
    assert longer[1..] == parts[1..];
    if value != "" {
      assert value == [value[0]] + value[1..];
      if HasPrefix(value, longer[0]) {
        assert value[1..][..|parts[0]|] == longer[0][1..];
        assert value[|longer[0]|..] == value[1..][|parts[0]|..];
      }
    }
  }

  /** More text in front never hurts. */
  lemma FloatingExtends(parts: seq<string>, value: string, i: nat)
    requires |parts| >= 1 && i <= |value| && Floating(parts, value[i..])
    ensures Floating(parts, value)
  {
    var j :| 0 <= j <= |value[i..]| && Anchored(parts, value[i..][j..]);
    assert value[i..][j..] == value[i + j..];
  }

  /** Hence taking the first occurrence of the next part is as good as any. */
  lemma GreedyStep(parts: seq<string>, value: string, idx: nat)
    requires |parts| >= 2 && OccursAt(value, parts[0], idx)
    requires forall j: nat :: j < idx ==> !OccursAt(value, parts[0], j)
    ensures Floating(parts, value) <==> Floating(parts[1..], value[idx + |parts[0]|..])
  {
    var part, rest := parts[0], value[idx + |parts[0]|..];
    if Floating(parts, value) {
      var i :| 0 <= i <= |value| && Anchored(parts, value[i..]);
      assert OccursAt(value, part, i);
      assert value[i..][|part|..] == value[i + |part|..] == rest[i - idx..];
      FloatingExtends(parts[1..], rest, i - idx);
    }
    if Floating(parts[1..], rest) {
      assert HasPrefix(value[idx..], part);
      assert value[idx..][|part|..] == rest;
      assert Anchored(parts, value[idx..]);
    }
  }

  lemma NoOccurrence(parts: seq<string>, value: string)
    requires |parts| >= 2 && forall j: nat :: !OccursAt(value, parts[0], j)
    ensures !Floating(parts, value)
  {
    if Floating(parts, value) {
      var i :| 0 <= i <= |value| && Anchored(parts, value[i..]);
      assert OccursAt(value, parts[0], i);
    }
  }

  lemma LastPart(part: string, value: string)
    ensures Floating([part], value) <==> HasSuffix(value, part)
  {
    if HasSuffix(value, part) {
      assert Anchored([part], value[|value| - |part|..]);
    }
  }

  /** The greedy matcher decides the glob relation. */
  method WildcardMatch(pattern: string, value: string) returns (ok: bool)
    ensures ok <==> Matches(pattern, value)
  {
    MatchesIsAnchored(pattern, value);
    var parts := Split(pattern);
    if |parts| == 1 {
      SplitWithoutStar(pattern);
      return pattern == value;
    }
    if !HasPrefix(value, parts[0]) {
      return false;
    }
    var v := value[|parts[0]|..];
    for k := 1 to |parts| - 1
      invariant Anchored(Split(pattern), value) <==> Floating(parts[k..], v)
    {
      var idx := Index(v, parts[k]);
      assert parts[k..][0] == parts[k] && parts[k..][1..] == parts[k + 1..];
      if idx < 0 {
        NoOccurrence(parts[k..], v);
        return false;
      }
      GreedyStep(parts[k..], v, idx);
      v := v[idx + |parts[k]|..];
    }
    assert parts[|parts| - 1..] == [parts[|parts| - 1]];
    LastPart(parts[|parts| - 1], v);
    return HasSuffix(v, parts[|parts| - 1]);
  }

  lemma {:induction false} SplitWithoutStar(pattern: string)
    requires |Split(pattern)| == 1
    ensures Split(pattern) == [pattern]
  {
    if pattern != "" {
      SplitWithoutStar(pattern[1..]);
      assert pattern == [pattern[0]] + pattern[1..];
    }
  }
}
