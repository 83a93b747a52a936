/**
 Reconciliation keys (grantKey and ciGrantKey): fields joined by NUL, the tag selector as JSON with sorted
 members. A key determines the grant's condition for everything the database can store.
 */
module GrantKeys {
  import opened Json
  import Reconcile

  type Selector = map<string, string>

  const NUL := '\0'

  /* ---------------------------------------------------------------- sorted members */

  /** Code point order, which for UTF-8 is the byte order Go sorts by. */
  predicate AtMost(a: string, b: string) {
    a == "" || (b != "" && (a[0] < b[0] || (a[0] == b[0] && AtMost(a[1..], b[1..]))))
  }

  lemma {:induction false} AtMostTotal(a: string, b: string)
    ensures AtMost(a, b) || AtMost(b, a)
  {
    if a != "" && b != "" {
      AtMostTotal(a[1..], b[1..]);
    }
  }

  lemma {:induction false} AtMostAntisymmetric(a: string, b: string)
    requires AtMost(a, b) && AtMost(b, a)
    ensures a == b
  {
    if a != "" && b != "" {
      AtMostAntisymmetric(a[1..], b[1..]);
      assert a == [a[0]] + a[1..] && b == [b[0]] + b[1..];
    }
  }

  lemma {:induction false} AtMostTransitive(a: string, b: string, c: string)
    requires AtMost(a, b) && AtMost(b, c)
    ensures AtMost(a, c)
  {
    if a != "" && b != "" && c != "" && a[0] == b[0] == c[0] {
      AtMostTransitive(a[1..], b[1..], c[1..]);
    }
  }

  predicate Least(s: set<string>, k: string) {
    k in s && forall j :: j in s ==> AtMost(k, j)
  }

  lemma {:induction false} LeastExists(s: set<string>) returns (k: string)
    requires s != {}
    ensures Least(s, k)
    decreases |s|
  {
    var x :| x in s;
    AtMostTotal(x, x);
    if s == {x} {
      return x;
    }
    var y := LeastExists(s - {x});
    AtMostTotal(x, y);
    if AtMost(x, y) {
      forall j | j in s
        ensures AtMost(x, j)
      {
        if j != x { AtMostTransitive(x, y, j); }
      }
      return x;
    }
    return y;
  }

  /** The names of a selector in order. */
  function Sorted(names: set<string>): (r: seq<string>)
    ensures forall k :: k in r <==> k in names
    decreases |names|
  {
    if names == {} then []
    else
      assert exists k :: Least(names, k) by { var k := LeastExists(names); }
      assert forall k, k' :: Least(names, k) && Least(names, k') ==> k == k' by {
        forall k, k' | Least(names, k) && Least(names, k')
          ensures k == k'
        {
          AtMostAntisymmetric(k, k');
        }
      }
      var k :| Least(names, k);
      [k] + Sorted(names - {k})
  }

  function MembersOf(selector: Selector): seq<Member> {
    var names := Sorted(selector.Keys);
    seq(|names|, i requires 0 <= i < |names| => (assert names[i] in names; Member(names[i], Str(selector[names[i]]))))
  }

  function Canonical(selector: Selector): string {
    WriteObject(MembersOf(selector))
  }

  /** The canonical text determines the selector. */
  lemma CanonicalInjective(a: Selector, b: Selector)
    requires Canonical(a) == Canonical(b)
    ensures a == b
  {
    WriteObjectInjective(MembersOf(a), MembersOf(b));
    MembersDetermine(a, b);
  }

  lemma MembersDetermine(a: Selector, b: Selector)
    requires MembersOf(a) == MembersOf(b)
    ensures a == b
  {
    var na, nb := Sorted(a.Keys), Sorted(b.Keys);
    assert |na| == |MembersOf(a)| == |nb|;
    forall i | 0 <= i < |na|
      ensures na[i] == nb[i] && na[i] in a && nb[i] in b && a[na[i]] == b[nb[i]]
    {
      assert na[i] in na && nb[i] in nb;
      assert MembersOf(a)[i] == MembersOf(b)[i];
    }
    forall k
      ensures k in a <==> k in b
      ensures k in a ==> a[k] == b[k]
    {
      assert k in a <==> k in na;
      assert k in b <==> k in nb;
    }
  }

  /* ---------------------------------------------------------------- joined fields */

  /** The first field ends at the first NUL. */
  lemma {:induction false} FirstField(a: string, x: string, b: string, y: string)
    requires NUL !in a && NUL !in b && a + [NUL] + x == b + [NUL] + y
    ensures a == b && x == y
  {
    var s, t := a + [NUL] + x, b + [NUL] + y;
    assert forall i :: 0 <= i < |a| ==> s[i] == a[i] && a[i] in a;
    assert forall i :: 0 <= i < |b| ==> t[i] == b[i] && b[i] in b;
    assert s[|a|] == NUL && t[|b|] == NUL;
    assert |a| == |b|;
    assert s[..|a|] == a && t[..|b|] == b;
    assert s[|a| + 1..] == x && t[|b| + 1..] == y;
  }

  function CountNul(s: string): nat {
    if s == "" then 0 else (if s[0] == NUL then 1 else 0) + CountNul(s[1..])
  }

  lemma {:induction false} CountNulConcat(s: string, t: string)
    ensures CountNul(s + t) == CountNul(s) + CountNul(t)
  {
    if s == "" {
      assert s + t == t;
    } else {
      CountNulConcat(s[1..], t);
      assert (s + t)[1..] == s[1..] + t;
    }
  }

  lemma {:induction false} CountNulZero(s: string)
    ensures CountNul(s) == 0 <==> NUL !in s
  {
    if s != "" {
      CountNulZero(s[1..]);
      assert s == [s[0]] + s[1..];
    }
  }

  lemma CanonicalHasNoNul(selector: Selector)
    ensures CountNul(Canonical(selector)) == 0
  {
    ObjectHasNoControls(MembersOf(selector));
    CountNulZero(Canonical(selector));
  }

  function Join(fields: seq<string>): string
    requires fields != []
  {
    if |fields| == 1 then fields[0] else fields[0] + [NUL] + Join(fields[1..])
  }

  function TotalNul(fields: seq<string>): nat {
    if fields == [] then 0 else CountNul(fields[0]) + TotalNul(fields[1..])
  }

  lemma {:induction false} JoinNul(fields: seq<string>)
    requires fields != []
    ensures CountNul(Join(fields)) == TotalNul(fields) + |fields| - 1
  {
    if |fields| > 1 {
      JoinNul(fields[1..]);
      CountNulConcat(fields[0] + [NUL], Join(fields[1..]));
      CountNulConcat(fields[0], [NUL]);
    } else {
      assert fields[1..] == [];
    }
  }

  lemma {:induction false} TotalNulZero(fields: seq<string>)
    ensures TotalNul(fields) == 0 <==> forall i :: 0 <= i < |fields| ==> NUL !in fields[i]
  {
    if fields != [] {
      TotalNulZero(fields[1..]);
      CountNulZero(fields[0]);
      assert forall i :: 1 <= i < |fields| ==> fields[i] == fields[1..][i - 1];
      assert forall i :: 0 <= i < |fields[1..]| ==> fields[1..][i] == fields[i + 1];
    }
  }

  lemma {:induction false} JoinInjectiveClean(a: seq<string>, b: seq<string>)
    requires |a| == |b| > 0 && Join(a) == Join(b)
    requires forall i :: 0 <= i < |a| ==> NUL !in a[i] && NUL !in b[i]
    ensures a == b
  {
    if |a| > 1 {
      FirstField(a[0], Join(a[1..]), b[0], Join(b[1..]));
      JoinInjectiveClean(a[1..], b[1..]);
      assert a == [a[0]] + a[1..] && b == [b[0]] + b[1..];
    } else {
      assert a == [a[0]] && b == [b[0]];
    }
  }

  /** NUL-free fields are determined by the joined text, even against fields that are not NUL-free. */
  lemma JoinInjective(a: seq<string>, b: seq<string>)
    requires |a| == |b| > 0 && Join(a) == Join(b)
    requires forall i :: 0 <= i < |a| ==> NUL !in a[i]
    ensures a == b
  {
    JoinNul(a);
    JoinNul(b);
    TotalNulZero(a);
    TotalNulZero(b);
    JoinInjectiveClean(a, b);
  }

  /* ---------------------------------------------------------------- the two kinds of grants */

  datatype AccessCond = AccessCond(issuer: string, group: string, selector: Selector)

  datatype AccessTerms = AccessTerms(principals: seq<string>, sudo: bool, maxValiditySeconds: int)

  datatype CICond = CICond(
    projectPath: string, refPattern: string, protectedOnly: bool, environmentPattern: string, selector: Selector)

  datatype CITerms = CITerms(principals: seq<string>, maxValiditySeconds: int)

  predicate Clean(s: string) {
    NUL !in s
  }

  /** PostgreSQL text and jsonb hold no NUL. */
  predicate CleanSelector(selector: Selector) {
    forall k :: k in selector ==> Clean(k) && Clean(selector[k])
  }

  function AccessFields(c: AccessCond): seq<string> {
    [c.issuer, c.group, Canonical(c.selector)]
  }

  function GrantKey(c: AccessCond): string {
    Join(AccessFields(c))
  }

  predicate AccessStorable(c: AccessCond) {
    Clean(c.issuer) && Clean(c.group) && CleanSelector(c.selector)
  }

  function CIFields(c: CICond): seq<string> {
    [c.projectPath, c.refPattern, if c.protectedOnly then "true" else "false", c.environmentPattern,
     Canonical(c.selector)]
  }

  function CIGrantKey(c: CICond): string {
    Join(CIFields(c))
  }

  predicate CIStorable(c: CICond) {
    Clean(c.projectPath) && Clean(c.refPattern) && Clean(c.environmentPattern) && CleanSelector(c.selector)
  }

  /** Two grants, one of which is in the database, share a key exactly when their conditions are equal. */
  lemma GrantKeyExact(a: AccessCond, b: AccessCond)
    requires AccessStorable(a)
    ensures GrantKey(a) == GrantKey(b) <==> a == b
  {
    if GrantKey(a) == GrantKey(b) {
      CanonicalHasNoNul(a.selector);
      CountNulZero(Canonical(a.selector));
      JoinInjective(AccessFields(a), AccessFields(b));
      assert AccessFields(a)[0] == AccessFields(b)[0] && AccessFields(a)[1] == AccessFields(b)[1];
      assert AccessFields(a)[2] == AccessFields(b)[2];
      CanonicalInjective(a.selector, b.selector);
    }
  }

  lemma CIGrantKeyExact(a: CICond, b: CICond)
    requires CIStorable(a)
    ensures CIGrantKey(a) == CIGrantKey(b) <==> a == b
  {
    if CIGrantKey(a) == CIGrantKey(b) {
      CanonicalHasNoNul(a.selector);
      CountNulZero(Canonical(a.selector));
      var fa, fb := CIFields(a), CIFields(b);
      JoinInjective(fa, fb);
      assert fa[0] == fb[0] && fa[1] == fb[1] && fa[2] == fb[2] && fa[3] == fb[3] && fa[4] == fb[4];
      assert |"true"| != |"false"|;
      CanonicalInjective(a.selector, b.selector);
    }
  }

  /** Without the text type's refusal of NUL the keys would not be injective. */
  lemma NulWouldCollide()
    ensures
      var a := AccessCond("i", ['g', NUL, 'h'], map[]);
      var b := AccessCond(['i', NUL, 'g'], "h", map[]);
      a != b && GrantKey(a) == GrantKey(b)
  {
    var a := AccessCond("i", ['g', NUL, 'h'], map[]);
    var b := AccessCond(['i', NUL, 'g'], "h", map[]);
    var json := Canonical(map[]);
    assert AccessFields(a)[1..] == [['g', NUL, 'h'], json] && AccessFields(b)[1..] == ["h", json];
    assert [['g', NUL, 'h'], json][1..] == [json] && ["h", json][1..] == [json];
    assert Join([json]) == json;
    assert Join([['g', NUL, 'h'], json]) == ['g', NUL, 'h'] + [NUL] + json;
    assert Join(["h", json]) == "h" + [NUL] + json;
    assert GrantKey(a) == "i" + [NUL] + (['g', NUL, 'h'] + [NUL] + json);
    assert GrantKey(b) == ['i', NUL, 'g'] + [NUL] + ("h" + [NUL] + json);
    assert |a.issuer| != |b.issuer|;
  }

  /** The issuer is that of the spec, or the default of the call if the spec has none. */
  predicate AccessValid(g: Reconcile.Grant<AccessCond, AccessTerms>) {
    g.cond.group != "" && g.cond.issuer != "" && |g.terms.principals| > 0 && g.terms.maxValiditySeconds > 0
  }

  predicate CIValid(g: Reconcile.Grant<CICond, CITerms>) {
    g.cond.projectPath != "" && |g.terms.principals| > 0 && g.terms.maxValiditySeconds > 0
  }

  lemma KeysAreLawful()
    ensures Reconcile.Lawful(GrantKey, AccessStorable) && Reconcile.Lawful(CIGrantKey, CIStorable)
  {
    forall a, b | AccessStorable(a) && GrantKey(a) == GrantKey(b)
      ensures a == b
    {
      GrantKeyExact(a, b);
    }
    forall a, b | CIStorable(a) && CIGrantKey(a) == CIGrantKey(b)
      ensures a == b
    {
      CIGrantKeyExact(a, b);
    }
  }

  /** An access grant refers to one group. */
  function AccessGroups(c: AccessCond): set<(string, string)> {
    {(c.issuer, c.group)}
  }

  function AccessKeep(stored: AccessCond, given: AccessCond): AccessCond {
    given.(issuer := stored.issuer, group := stored.group)
  }

  function CIGroups(c: CICond): set<()> {
    {}
  }

  function CIKeep(stored: CICond, given: CICond): CICond {
    given.(projectPath := stored.projectPath)
  }

  /** The access grants: a group is created with its first declared grant, and an update keeps it. */
  method NewAccessGrants() returns (s: Reconcile.GrantStore<AccessCond, AccessTerms, (string, string)>)
    ensures fresh(s) && s.Valid() && s.db == Reconcile.Db(map[], 0, {}, [])
    ensures s.key == GrantKey && s.storable == AccessStorable
    ensures forall g :: s.valid(g) <==> g.cond.issuer != "" && g.cond.group != "" && g.terms.principals != []
                                        && g.terms.maxValiditySeconds > 0
    ensures forall c :: s.groupsOf(c) == {(c.issuer, c.group)}
    ensures forall c, given :: s.keep(c, given) == AccessCond(c.issuer, c.group, given.selector)
  {
    KeysAreLawful();
    s := new Reconcile.GrantStore(GrantKey, AccessStorable, AccessValid, AccessGroups, AccessKeep);
  }

  /** The CI grants: no groups, and an update keeps the project path. */
  method NewCIGrants() returns (s: Reconcile.GrantStore<CICond, CITerms, ()>)
    ensures fresh(s) && s.Valid() && s.db == Reconcile.Db(map[], 0, {}, [])
    ensures s.key == CIGrantKey && s.storable == CIStorable
    ensures forall g :: s.valid(g) <==> g.cond.projectPath != "" && g.terms.principals != []
                                        && g.terms.maxValiditySeconds > 0
    ensures forall c :: s.groupsOf(c) == {}
    ensures forall c, given :: s.keep(c, given) == CICond(c.projectPath, given.refPattern, given.protectedOnly,
                                                          given.environmentPattern, given.selector)
  {
    KeysAreLawful();
    s := new Reconcile.GrantStore(CIGrantKey, CIStorable, CIValid, CIGroups, CIKeep);
  }
}
