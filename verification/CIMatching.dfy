/**
 CI authorisation: which grants cover a pipeline job at issuance (internal/store/ci_grants.go, the SQL
 pre-filter included), and which identity principals the certificate carries (internal/ca/keyid.go).
 */
module CIMatching {
  import Glob

  datatype CIGrant = CIGrant(
    projectPath: string, refPattern: string, protectedOnly: bool, environmentPattern: string,
    tagSelector: map<string, string>, principals: seq<string>, maxValiditySeconds: int)

  /** The claims of a job token that grants are matched against. */
  datatype Job = Job(projectPath: string, ref: string, refProtected: bool, environment: string)

  /** The exact path, or a namespace above it. */
  predicate ProjectMatches(grantPath: string, projectPath: string) {
    grantPath == projectPath || grantPath + "/" <= projectPath
  }

  predicate Covers(g: CIGrant, job: Job) {
    && ProjectMatches(g.projectPath, job.projectPath)
    && (g.protectedOnly ==> job.refProtected)
    && (g.refPattern != "" ==> Glob.Matches(g.refPattern, job.ref))
    && (g.environmentPattern != "" ==> Glob.Matches(g.environmentPattern, job.environment))
  }

  method MatchesJob(g: CIGrant, job: Job) returns (ok: bool)
    ensures ok <==> Covers(g, job)
    ensures ok <==>
              && (g.projectPath == job.projectPath || g.projectPath + "/" <= job.projectPath)
              && (g.protectedOnly ==> job.refProtected)
              && (g.refPattern == "" || Glob.Matches(g.refPattern, job.ref))
              && (g.environmentPattern == "" || Glob.Matches(g.environmentPattern, job.environment))
  {
    if !ProjectMatches(g.projectPath, job.projectPath) {
      return false;
    }
    if g.protectedOnly && !job.refProtected {
      return false;
    }
    if g.refPattern != "" {
      ok := Glob.WildcardMatch(g.refPattern, job.ref);
      if !ok { return; }
    }
    if g.environmentPattern != "" {
      ok := Glob.WildcardMatch(g.environmentPattern, job.environment);
      if !ok { return; }
    }
    return true;
  }

  /* ---------------------------------------------------------------- the SQL pre-filter */

  const PERCENT := '%'
  const UNDERSCORE := '_'
  const ESC := '\\'

  /** SQL LIKE with the default escape character; a dangling escape matches nothing. */
  predicate Like(value: string, pattern: string)
    decreases |pattern|
  {
    if pattern == "" then value == ""
    else if pattern[0] == PERCENT then exists i :: 0 <= i <= |value| && Like(value[i..], pattern[1..])
    else if pattern[0] == ESC then
      |pattern| > 1 && value != "" && value[0] == pattern[1] && Like(value[1..], pattern[2..])
    else value != "" && (pattern[0] == UNDERSCORE || value[0] == pattern[0]) && Like(value[1..], pattern[1..])
  }

  /** The WHERE clause of the candidate query. */
  predicate Selected(grantPath: string, projectPath: string) {
    grantPath == projectPath || Like(projectPath, grantPath + "/%")
  }

  function Candidates(table: seq<CIGrant>, projectPath: string): seq<CIGrant> {
    if table == [] then []
    else (if Selected(table[0].projectPath, projectPath) then [table[0]] else [])
         + Candidates(table[1..], projectPath)
  }

  /** The grants that cover the job, in table order. */
  function Covering(table: seq<CIGrant>, job: Job): seq<CIGrant> {
    if table == [] then []
    else (if Covers(table[0], job) then [table[0]] else []) + Covering(table[1..], job)
  }

  /** The elements with a property, in order. */
  function Filter<T>(keep: T -> bool, s: seq<T>): seq<T> {
    if s == [] then [] else (if keep(s[0]) then [s[0]] else []) + Filter(keep, s[1..])
  }

  /** `at` are the positions in the first `n` elements of those with the property, in order. */
  predicate Positions<T>(keep: T -> bool, s: seq<T>, at: seq<nat>, n: nat)
    requires n <= |s|
  {
    && (forall k :: 0 <= k < |at| ==> at[k] < n)
    && (forall k, l :: 0 <= k < l < |at| ==> at[k] < at[l])
    && forall i: nat :: i < n ==> (i in at <==> keep(s[i]))
  }

  /** These elements are those of the sequence at these positions. */
  predicate ShownAt<T(==)>(shown: seq<T>, s: seq<T>, at: seq<nat>) {
    |shown| == |at| && forall k :: 0 <= k < |at| ==> at[k] < |s| && shown[k] == s[at[k]]
  }

  lemma Assoc<T>(a: seq<T>, b: seq<T>, c: seq<T>)
    ensures a + (b + c) == a + b + c
  {
  }

  lemma {:induction false} FilterConcat<T>(keep: T -> bool, a: seq<T>, b: seq<T>)
    ensures Filter(keep, a + b) == Filter(keep, a) + Filter(keep, b)
  {
    if a == [] {
      assert a + b == b;
    } else {
      var first := if keep(a[0]) then [a[0]] else [];
      FilterConcat(keep, a[1..], b);
      assert (a + b)[1..] == a[1..] + b;
      Assoc(first, Filter(keep, a[1..]), Filter(keep, b));
    }
  }

  lemma FilterOneMore<T>(keep: T -> bool, s: seq<T>, n: nat)
    requires n < |s|
    ensures Filter(keep, s[..n + 1]) == Filter(keep, s[..n]) + (if keep(s[n]) then [s[n]] else [])
  {
    var one := [s[n]];
    assert s[..n + 1] == s[..n] + one;
    FilterConcat(keep, s[..n], one);
    assert one[1..] == [];
    assert Filter(keep, one) == (if keep(s[n]) then [s[n]] else []) + [];
  }

  lemma PositionsOneMore<T>(keep: T -> bool, s: seq<T>, at: seq<nat>, n: nat)
    requires n < |s| && Positions(keep, s, at, n)
    ensures Positions(keep, s, if keep(s[n]) then at + [n] else at, n + 1)
  {
    assert n !in at;
    assert forall i :: i in at + [n] <==> i in at || i == n;
  }

  lemma ShownOneMore<T>(shown: seq<T>, s: seq<T>, at: seq<nat>, n: nat, taken: bool)
    requires ShownAt(shown, s, at) && n < |s|
    ensures ShownAt(shown + (if taken then [s[n]] else []), s, if taken then at + [n] else at)
  {
    assert shown + [] == shown;
  }

  /** The filter of the first `n` elements, with its positions. */
  predicate FilteredAt<T(==)>(keep: T -> bool, s: seq<T>, at: seq<nat>, n: nat)
    requires n <= |s|
  {
    Positions(keep, s, at, n) && ShownAt(Filter(keep, s[..n]), s, at)
  }

  lemma FilteredOneMore<T>(keep: T -> bool, s: seq<T>, at: seq<nat>, n: nat) returns (at': seq<nat>)
    requires n < |s| && FilteredAt(keep, s, at, n)
    ensures FilteredAt(keep, s, at', n + 1)
  {
    FilterOneMore(keep, s, n);
    PositionsOneMore(keep, s, at, n);
    ShownOneMore(Filter(keep, s[..n]), s, at, n, keep(s[n]));
    at' := if keep(s[n]) then at + [n] else at;
  }

  lemma FilterPositions<T>(keep: T -> bool, s: seq<T>) returns (at: seq<nat>)
    ensures FilteredAt(keep, s, at, |s|)
  {
    at := [];
    assert s[..0] == [];
    for n := 0 to |s|
      invariant FilteredAt(keep, s, at, n)
    {
      at := FilteredOneMore(keep, s, at, n);
    }
  }

  /** The rows the query selects that cover the job are one filter of the table. */
  lemma {:induction false} OneFilter(table: seq<CIGrant>, job: Job)
    ensures Covering(Candidates(table, job.projectPath), job)
            == Filter((g: CIGrant) => Selected(g.projectPath, job.projectPath) && Covers(g, job), table)
  {
    if table != [] {
      OneFilter(table[1..], job);
      var g := table[0];
      var rest := Candidates(table[1..], job.projectPath);
      assert ([g] + rest)[1..] == rest && [] + rest == rest;
      var more := Covering(rest, job);
      assert [] + more == more;
    }
  }

  lemma CoverOne(matched: seq<CIGrant>, candidates: seq<CIGrant>, i: nat, job: Job)
    requires i < |candidates|
    ensures matched + Covering(candidates[i..], job)
            == (if Covers(candidates[i], job) then matched + [candidates[i]] else matched)
               + Covering(candidates[i + 1..], job)
  {
    var rest := Covering(candidates[i + 1..], job);
    assert candidates[i..][1..] == candidates[i + 1..];
    assert [] + rest == rest;
    assert matched + ([candidates[i]] + rest) == (matched + [candidates[i]]) + rest;
  }

  /**
   MatchCIGrants: candidates from the database, the remaining conditions checked in a loop. The result is
   the part of the table, in its order, whose rows the query selects and that meet all four conditions;
   `at` are their positions.
   */
  method MatchCIGrants(table: seq<CIGrant>, job: Job) returns (matched: seq<CIGrant>, ghost at: seq<nat>)
    ensures matched == Covering(Candidates(table, job.projectPath), job)
    ensures |at| == |matched| && forall k :: 0 <= k < |at| ==> at[k] < |table| && matched[k] == table[at[k]]
    ensures forall k, l :: 0 <= k < l < |at| ==> at[k] < at[l]
    ensures forall i: nat :: i < |table| ==>
              var g := table[i];
              i in at <==>
                && (g.projectPath == job.projectPath || Like(job.projectPath, g.projectPath + "/%"))
                && (g.projectPath == job.projectPath || g.projectPath + "/" <= job.projectPath)
                && (g.protectedOnly ==> job.refProtected)
                && (g.refPattern == "" || Glob.Matches(g.refPattern, job.ref))
                && (g.environmentPattern == "" || Glob.Matches(g.environmentPattern, job.environment))
  {
    var candidates := Candidates(table, job.projectPath);
    matched := [];
    for i := 0 to |candidates|
      invariant matched + Covering(candidates[i..], job) == Covering(candidates, job)
    {
      var ok := MatchesJob(candidates[i], job);
      CoverOne(matched, candidates, i, job);
      if ok {
        matched := matched + [candidates[i]];
      }
    }
    OneFilter(table, job);
    assert table[..|table|] == table;
    at := FilterPositions((g: CIGrant) => Selected(g.projectPath, job.projectPath) && Covers(g, job), table);
  }

  lemma {:induction false} LikeAnything(value: string)
    ensures Like(value, "%")
  {
    assert Like(value[|value|..], "%"[1..]);
  }

  /** A path without escapes is selected by its own text, even where it holds LIKE wildcards. */
  lemma {:induction false} LikeOwnText(path: string, tail: string)
    requires ESC !in path
    ensures Like(path + "/" + tail, path + "/%")
    decreases |path|
  {
    var value, pattern := path + "/" + tail, path + "/%";
    if path == "" {
      assert pattern[1..] == "%" && value[1..] == tail;
      LikeAnything(tail);
    } else {
      LikeOwnText(path[1..], tail);
      assert value[1..] == path[1..] + "/" + tail;
      assert pattern[1..] == path[1..] + "/%";
      if path[0] == PERCENT {
        assert Like(value[1..], pattern[1..]);
      }
    }
  }

  predicate Lagging(queue: string) {
    queue != "" && forall i :: 0 <= i < |queue| ==> queue[i] == ESC || queue[i] == UNDERSCORE
  }

  /**
   Once an escape made the pattern run ahead of the value, the characters it skipped (escapes and
   underscores) stay in front of the value and the closing slash is never reached.
   */
  lemma {:induction false} LagNeverRecovers(queue: string, path: string, tail: string)
    requires Lagging(queue) && PERCENT !in path
    ensures !Like(queue + path + "/" + tail, path + "/%")
    decreases |path|
  {
    var value, pattern := queue + path + "/" + tail, path + "/%";
    if path != "" && pattern[0] == UNDERSCORE {
      var queue' := queue[1..] + [UNDERSCORE];
      assert value[1..] == queue' + path[1..] + "/" + tail;
      assert pattern[1..] == path[1..] + "/%";
      LagNeverRecovers(queue', path[1..], tail);
    } else if |path| > 1 && pattern[0] == ESC && value[0] == pattern[1] {
      var queue' := queue[1..] + [ESC, path[1]];
      assert value[1..] == queue' + path[2..] + "/" + tail;
      assert pattern[2..] == path[2..] + "/%";
      LagNeverRecovers(queue', path[2..], tail);
    }
  }

  lemma {:induction false} LikeWithEscape(path: string, tail: string)
    requires ESC in path && PERCENT !in path
    ensures !Like(path + "/" + tail, path + "/%")
    decreases |path|
  {
    var value, pattern := path + "/" + tail, path + "/%";
    if path[0] != ESC {
      assert value[1..] == path[1..] + "/" + tail;
      assert pattern[1..] == path[1..] + "/%";
      LikeWithEscape(path[1..], tail);
    } else if |path| > 1 && path[1] == ESC {
      assert value[1..] == [ESC] + path[2..] + "/" + tail;
      assert pattern[2..] == path[2..] + "/%";
      LagNeverRecovers([ESC], path[2..], tail);
    }
  }

  lemma NamespaceSplit(grantPath: string, projectPath: string) returns (tail: string)
    requires grantPath + "/" <= projectPath
    ensures projectPath == grantPath + "/" + tail
  {
    tail := projectPath[|grantPath| + 1..];
  }

  /** A covering row is kept by the pre-filter if the project path has no backslash. */
  lemma PrefilterKeeps(grantPath: string, projectPath: string)
    requires ProjectMatches(grantPath, projectPath) && ESC !in projectPath
    ensures Selected(grantPath, projectPath)
  {
    if grantPath != projectPath {
      var tail := NamespaceSplit(grantPath, projectPath);
      assert forall c :: c in grantPath ==> c in projectPath;
      LikeOwnText(grantPath, tail);
    }
  }

  /** Exactly which covering rows the pre-filter loses, for project paths without percent signs. */
  lemma PrefilterLosesExactly(grantPath: string, projectPath: string)
    requires ProjectMatches(grantPath, projectPath) && PERCENT !in projectPath
    ensures Selected(grantPath, projectPath) <==> grantPath == projectPath || ESC !in grantPath
  {
    if grantPath != projectPath {
      var tail := NamespaceSplit(grantPath, projectPath);
      assert forall c :: c in grantPath ==> c in projectPath;
      if ESC in grantPath {
        LikeWithEscape(grantPath, tail);
      } else {
        LikeOwnText(grantPath, tail);
      }
    }
  }

  /** A row that is lost: the grant path `a\b` covers the project `a\b/c`, but the pattern reads `ab/%`. */
  lemma BackslashRowLost()
    ensures ProjectMatches("a\\b", "a\\b/c") && !Selected("a\\b", "a\\b/c")
  {
    assert "a\\b" + "/" <= "a\\b/c";
    PrefilterLosesExactly("a\\b", "a\\b/c");
  }

  /** The pre-filter loses nothing: the query with the loop equals filtering the whole table. */
  lemma {:induction false} PrefilterIsLossless(table: seq<CIGrant>, job: Job)
    requires ESC !in job.projectPath
    ensures Covering(Candidates(table, job.projectPath), job) == Covering(table, job)
  {
    if table != [] {
      PrefilterIsLossless(table[1..], job);
      var g := table[0];
      var rest := Candidates(table[1..], job.projectPath);
      assert ([g] + rest)[1..] == rest && [] + rest == rest;
      if Covers(g, job) {
        PrefilterKeeps(g.projectPath, job.projectPath);
      }
    }
  }

  /** A row that covers the job and is written with a backslash above the project itself. */
  predicate Lost(g: CIGrant, job: Job) {
    Covers(g, job) && g.projectPath != job.projectPath && ESC in g.projectPath
  }

  function WithoutLost(table: seq<CIGrant>, job: Job): seq<CIGrant> {
    if table == [] then []
    else (if Lost(table[0], job) then [] else [table[0]]) + WithoutLost(table[1..], job)
  }

  /** In general, for paths without percent signs, exactly the lost rows are missing. */
  lemma {:induction false} PrefilterLosesExactlyLost(table: seq<CIGrant>, job: Job)
    requires PERCENT !in job.projectPath
    ensures Covering(Candidates(table, job.projectPath), job) == Covering(WithoutLost(table, job), job)
  {
    if table != [] {
      PrefilterLosesExactlyLost(table[1..], job);
      var g := table[0];
      var rest, kept := Candidates(table[1..], job.projectPath), WithoutLost(table[1..], job);
      if Covers(g, job) {
        PrefilterLosesExactly(g.projectPath, job.projectPath);
      }
      assert ([g] + rest)[1..] == rest && ([g] + kept)[1..] == kept && [] + rest == rest && [] + kept == kept;
    }
  }

  /* ---------------------------------------------------------------- identity principals */

  const SLASH := '/'

  /** strings.LastIndex of the slash, or -1. */
  function LastSlash(s: string): (idx: int)
    ensures -1 <= idx < |s|
    ensures idx >= 0 ==> s[idx] == SLASH
    ensures forall i :: idx < i < |s| ==> s[i] != SLASH
  {
    if s == "" then -1
    else if s[|s| - 1] == SLASH then |s| - 1
    else LastSlash(s[..|s| - 1])
  }

  /** The path and its namespaces, nearest first; a leading slash does not start a namespace. */
  function Namespaces(path: string): seq<string>
    decreases |path|
  {
    [path] + (if LastSlash(path) <= 0 then [] else Namespaces(path[..LastSlash(path)]))
  }

  /** Nearest first: each namespace is shorter than those before it. */
  lemma {:induction false} NamespacesGetShorter(path: string, i: nat, j: nat)
    requires i < j < |Namespaces(path)|
    ensures |Namespaces(path)[j]| < |Namespaces(path)[i]| <= |path|
    decreases |path|
  {
    var shorter := path[..LastSlash(path)];
    assert Namespaces(path) == [path] + Namespaces(shorter);
    if i > 0 {
      NamespacesGetShorter(shorter, i - 1, j - 1);
    } else if j > 1 {
      NamespacesGetShorter(shorter, 0, j - 1);
      assert Namespaces(shorter)[0] == shorter;
    } else {
      assert Namespaces(shorter)[0] == shorter;
    }
  }

  function Prefixed(paths: seq<string>): seq<string> {
    seq(|paths|, i requires 0 <= i < |paths| => "ci:" + paths[i])
  }

  lemma PrefixedCons(path: string, rest: seq<string>)
    ensures Prefixed([path] + rest) == ["ci:" + path] + Prefixed(rest)
  {
  }

  lemma PrefixedNamespaces(path: string)
    ensures Prefixed(Namespaces(path))
            == ["ci:" + path]
               + (if LastSlash(path) <= 0 then [] else Prefixed(Namespaces(path[..LastSlash(path)])))
  {
    PrefixedCons(path, if LastSlash(path) <= 0 then [] else Namespaces(path[..LastSlash(path)]));
  }

  lemma MoveOver(done: seq<string>, next: string, rest: seq<string>)
    ensures done + ([next] + rest) == (done + [next]) + rest
  {
  }

  method CIPrincipals(projectPath: string) returns (principals: seq<string>)
    ensures principals == Prefixed(Namespaces(projectPath))
  {
    var path := projectPath;
    principals := ["ci:" + path];
    ghost var done: seq<string> := [];
    while true
      invariant principals == done + ["ci:" + path]
      invariant done + Prefixed(Namespaces(path)) == Prefixed(Namespaces(projectPath))
      decreases |path|
    {
      PrefixedNamespaces(path);
      var idx := LastSlash(path);
      if idx <= 0 {
        return;
      }
      MoveOver(done, "ci:" + path, Prefixed(Namespaces(path[..idx])));
      done := principals;
      path := path[..idx];
      principals := principals + ["ci:" + path];
    }
  }

  lemma {:induction false} NamespacesExactly(path: string, g: string)
    ensures g in Namespaces(path) <==> g == path || (g != "" && g + "/" <= path)
    decreases |path|
  {
    var idx := LastSlash(path);
    assert g + "/" <= path ==> path[|g|] == SLASH && g == path[..|g|];
    if idx > 0 {
      var shorter := path[..idx];
      NamespacesExactly(shorter, g);
      assert Namespaces(path) == [path] + Namespaces(shorter);
      if g == shorter {
        assert g + "/" == path[..idx + 1];
      }
    }
  }

  lemma PrefixedExactly(paths: seq<string>, g: string)
    ensures "ci:" + g in Prefixed(paths) <==> g in paths
  {
    if "ci:" + g in Prefixed(paths) {
      var i :| 0 <= i < |paths| && Prefixed(paths)[i] == "ci:" + g;
      assert ("ci:" + paths[i])[3..] == paths[i] && ("ci:" + g)[3..] == g;
    }
    if g in paths {
      var i :| 0 <= i < |paths| && paths[i] == g;
      assert Prefixed(paths)[i] == "ci:" + g;
    }
  }

  /** The two forms of "this grant path covers this project" agree. */
  lemma PrincipalsAgreeWithMatching(grantPath: string, projectPath: string)
    requires grantPath != ""
    ensures ProjectMatches(grantPath, projectPath) <==> "ci:" + grantPath in Prefixed(Namespaces(projectPath))
  {
    PrefixedExactly(Namespaces(projectPath), grantPath);
    NamespacesExactly(projectPath, grantPath);
  }

  /** They disagree on the empty grant path, exactly for projects that start with a slash. */
  lemma EmptyGrantPath(projectPath: string)
    ensures ProjectMatches("", projectPath) != ("ci:" in Prefixed(Namespaces(projectPath)))
            <==> "/" <= projectPath
  {
    assert "ci:" + "" == "ci:";
    PrefixedExactly(Namespaces(projectPath), "");
    NamespacesExactly(projectPath, "");
    assert "" + "/" == "/";
  }
}
