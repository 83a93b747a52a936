/** The host access list: internal/store/enrollment.go, ListAuthorizedPrincipals. */
module HostAcl {
  import opened CIMatching

  /** (issuer, subject) and (issuer, name) are unique in the schema and stand for the row ids. */
  datatype Identity = Identity(issuer: string, subject: string)
  datatype Group = Group(issuer: string, name: string)

  datatype Profile = Profile(username: string, email: string, active: bool)

  datatype AccessGrant = AccessGrant(group: Group, tagSelector: map<string, string>, principals: seq<string>)

  datatype Membership = Membership(user: Identity, group: Group)

  datatype Tables = Tables(
    users: map<Identity, Profile>, memberships: set<Membership>,
    grants: seq<AccessGrant>, ciGrants: seq<CIGrant>)

  /** jsonb containment of flat string objects. */
  predicate Contained(selector: map<string, string>, tags: map<string, string>) {
    forall k :: k in selector ==> k in tags && tags[k] == selector[k]
  }

  predicate Reaches(
    principals: seq<string>, selector: map<string, string>, tags: map<string, string>, localUser: string)
  {
    localUser in principals && Contained(selector, tags)
  }

  /** The joined rows of the first query that belong to one user. */
  predicate Contributes(db: Tables, id: Identity, tags: map<string, string>, localUser: string) {
    && id in db.users && db.users[id].active
    && exists g :: g in db.grants && Membership(id, g.group) in db.memberships
                   && Reaches(g.principals, g.tagSelector, tags, localUser)
  }

  function UserRows(db: Tables, tags: map<string, string>, localUser: string): set<(string, string)> {
    set id | id in db.users.Keys && Contributes(db, id, tags, localUser) :: (db.users[id].username, db.users[id].email)
  }

  function CIRows(db: Tables, tags: map<string, string>, localUser: string): set<string> {
    set g | g in db.ciGrants && Reaches(g.principals, g.tagSelector, tags, localUser) :: "ci:" + g.projectPath
  }

  /** The principals of the users, and those of the CI grants. */
  ghost predicate UserPrincipal(db: Tables, tags: map<string, string>, localUser: string, p: string) {
    p != "" && exists id :: Contributes(db, id, tags, localUser)
                            && (p == db.users[id].username || p == db.users[id].email)
  }

  ghost predicate CIPrincipal(db: Tables, tags: map<string, string>, localUser: string, p: string) {
    exists g :: g in db.ciGrants && Reaches(g.principals, g.tagSelector, tags, localUser) && p == "ci:" + g.projectPath
  }

  predicate NoDuplicates(s: seq<string>) {
    forall i, j :: 0 <= i < j < |s| ==> s[i] != s[j]
  }

  /** Appends a principal unless it is empty or already listed. */
  function Add(principals: seq<string>, p: string): (r: seq<string>)
    ensures NoDuplicates(principals) && "" !in principals ==> NoDuplicates(r) && "" !in r
    ensures forall x :: x in r <==> x in principals || (x == p && p != "")
  {
    if p != "" && p !in principals then principals + [p] else principals
  }

  /** The list holds the nonempty fields of the rows read so far, once each. */
  ghost predicate FromRows(principals: seq<string>, done: set<(string, string)>) {
    && NoDuplicates(principals) && "" !in principals
    && forall p :: p in principals <==> p != "" && exists r :: r in done && (p == r.0 || p == r.1)
  }

  lemma RowAdded(principals: seq<string>, done: set<(string, string)>, row: (string, string))
    requires FromRows(principals, done)
    ensures FromRows(Add(Add(principals, row.0), row.1), done + {row})
  {
    assert forall r :: r in done + {row} <==> r in done || r == row;
  }

  /** The loop over the rows of the first query, in any order. */
  method AddUserRows(all: set<(string, string)>) returns (principals: seq<string>)
    ensures FromRows(principals, all)
  {
    principals := [];
    var rows := all;
    while rows != {}
      invariant rows <= all && FromRows(principals, all - rows)
      decreases |rows|
    {
      var row :| row in rows;
      RowAdded(principals, all - rows, row);
      assert all - rows + {row} == all - (rows - {row});
      principals := Add(Add(principals, row.0), row.1);
      rows := rows - {row};
    }
    assert all - rows == all;
  }

  /** The loop over the rows of the second query. */
  method AddCIRows(listed: seq<string>, all: set<string>) returns (principals: seq<string>)
    requires NoDuplicates(listed) && "" !in listed && "" !in all
    ensures NoDuplicates(principals) && "" !in principals
    ensures forall p :: p in principals <==> p in listed || p in all
  {
    principals := listed;
    var rows := all;
    while rows != {}
      invariant rows <= all && NoDuplicates(principals) && "" !in principals
      invariant forall p :: p in principals <==> p in listed || p in all - rows
      decreases |rows|
    {
      var p :| p in rows;
      principals := Add(principals, p);
      rows := rows - {p};
    }
  }

  /** A grant reaches the host for the local user: said on its fields. */
  lemma ReachesExactly(
    principals: seq<string>, selector: map<string, string>, tags: map<string, string>, localUser: string)
    ensures Reaches(principals, selector, tags, localUser)
            <==> localUser in principals && selector.Items <= tags.Items
  {
    if selector.Items <= tags.Items {
      forall k | k in selector
        ensures k in tags && tags[k] == selector[k]
      {
        assert (k, selector[k]) in selector.Items;
      }
    }
  }

  /** A host with more tags is reached by whatever reached it before. */
  lemma MoreTagsReachMore(
    db: Tables, tags: map<string, string>, more: map<string, string>, localUser: string, p: string)
    requires tags.Items <= more.Items && Listed(db, tags, localUser, p)
    ensures Listed(db, more, localUser, p)
  {
    forall principals: seq<string>, selector: map<string, string> | Reaches(principals, selector, tags, localUser)
      ensures Reaches(principals, selector, more, localUser)
    {
      ReachesExactly(principals, selector, tags, localUser);
      ReachesExactly(principals, selector, more, localUser);
    }
    if UserPrincipal(db, tags, localUser, p) {
      var id :| Contributes(db, id, tags, localUser) && (p == db.users[id].username || p == db.users[id].email);
      assert Contributes(db, id, more, localUser);
    } else {
      var g :| g in db.ciGrants && Reaches(g.principals, g.tagSelector, tags, localUser)
               && p == "ci:" + g.projectPath;
      assert Reaches(g.principals, g.tagSelector, more, localUser);
    }
  }

  /** An active user, a membership and an access grant that make a name or address appear in the list. */
  ghost predicate ReachedThrough(
    db: Tables, tags: map<string, string>, localUser: string, p: string, id: Identity, g: AccessGrant)
  {
    && id in db.users && db.users[id].active && g in db.grants && Membership(id, g.group) in db.memberships
    && localUser in g.principals && g.tagSelector.Items <= tags.Items
    && p != "" && (p == db.users[id].username || p == db.users[id].email)
  }

  lemma UserPrincipalExactly(db: Tables, tags: map<string, string>, localUser: string, p: string)
    ensures UserPrincipal(db, tags, localUser, p)
            <==> exists id, g :: ReachedThrough(db, tags, localUser, p, id, g)
  {
    if UserPrincipal(db, tags, localUser, p) {
      var id :| Contributes(db, id, tags, localUser) && (p == db.users[id].username || p == db.users[id].email);
      var g :| g in db.grants && Membership(id, g.group) in db.memberships
               && Reaches(g.principals, g.tagSelector, tags, localUser);
      ReachesExactly(g.principals, g.tagSelector, tags, localUser);
      assert ReachedThrough(db, tags, localUser, p, id, g);
    }
    if id, g :| ReachedThrough(db, tags, localUser, p, id, g) {
      ReachesExactly(g.principals, g.tagSelector, tags, localUser);
      assert Contributes(db, id, tags, localUser);
    }
  }

  lemma CIPrincipalExactly(db: Tables, tags: map<string, string>, localUser: string, p: string)
    ensures CIPrincipal(db, tags, localUser, p)
            <==> exists g :: g in db.ciGrants && localUser in g.principals
                             && g.tagSelector.Items <= tags.Items && p == "ci:" + g.projectPath
  {
    forall g | g in db.ciGrants
      ensures Reaches(g.principals, g.tagSelector, tags, localUser)
              <==> localUser in g.principals && g.tagSelector.Items <= tags.Items
    {
      ReachesExactly(g.principals, g.tagSelector, tags, localUser);
    }
  }

  lemma ListedExactly(db: Tables, tags: map<string, string>, localUser: string)
    ensures forall p :: Listed(db, tags, localUser, p) <==>
              || (exists id, g :: ReachedThrough(db, tags, localUser, p, id, g))
              || exists g :: g in db.ciGrants && localUser in g.principals
                             && g.tagSelector.Items <= tags.Items && p == "ci:" + g.projectPath
  {
    forall p
      ensures Listed(db, tags, localUser, p) <==>
              || (exists id, g :: ReachedThrough(db, tags, localUser, p, id, g))
              || exists g :: g in db.ciGrants && localUser in g.principals
                             && g.tagSelector.Items <= tags.Items && p == "ci:" + g.projectPath
    {
      UserPrincipalExactly(db, tags, localUser, p);
      CIPrincipalExactly(db, tags, localUser, p);
    }
  }

  /** The list has no duplicates and no empty entries. */
  method ListAuthorizedPrincipals(db: Tables, tags: map<string, string>, localUser: string)
    returns (principals: seq<string>)
    ensures NoDuplicates(principals) && "" !in principals
    ensures forall p :: p in principals <==>
              || (exists id, g :: ReachedThrough(db, tags, localUser, p, id, g))
              || exists g :: g in db.ciGrants && localUser in g.principals
                             && g.tagSelector.Items <= tags.Items && p == "ci:" + g.projectPath
    ensures forall p :: p in principals <==> Listed(db, tags, localUser, p)
  {
    var users := AddUserRows(UserRows(db, tags, localUser));
    principals := AddCIRows(users, CIRows(db, tags, localUser));
    forall p
      ensures p in users <==> UserPrincipal(db, tags, localUser, p)
    {
      UserRowsExactly(db, tags, localUser, p);
    }
    assert forall p :: p in principals <==> Listed(db, tags, localUser, p);
    ListedExactly(db, tags, localUser);
  }

  lemma UserRowsExactly(db: Tables, tags: map<string, string>, localUser: string, p: string)
    ensures UserPrincipal(db, tags, localUser, p)
            <==> p != "" && exists r :: r in UserRows(db, tags, localUser) && (p == r.0 || p == r.1)
  {
    if UserPrincipal(db, tags, localUser, p) {
      var id :| Contributes(db, id, tags, localUser) && (p == db.users[id].username || p == db.users[id].email);
      assert (db.users[id].username, db.users[id].email) in UserRows(db, tags, localUser);
    }
  }

  /**
   The CI part of the list meets the principals of a CI certificate exactly when some CI grant covers
   the project, names the local user and has a selector within the host tags.
   */
  lemma CIAccessExactly(db: Tables, tags: map<string, string>, localUser: string, projectPath: string)
    requires forall g :: g in db.ciGrants ==> g.projectPath != ""
    ensures (exists p :: p in Prefixed(Namespaces(projectPath)) && CIPrincipal(db, tags, localUser, p))
            <==> (exists g :: g in db.ciGrants && ProjectMatches(g.projectPath, projectPath)
                              && Reaches(g.principals, g.tagSelector, tags, localUser))
  {
    forall g | g in db.ciGrants
      ensures ProjectMatches(g.projectPath, projectPath)
              <==> "ci:" + g.projectPath in Prefixed(Namespaces(projectPath))
    {
      PrincipalsAgreeWithMatching(g.projectPath, projectPath);
    }
    if g :| g in db.ciGrants && ProjectMatches(g.projectPath, projectPath)
            && Reaches(g.principals, g.tagSelector, tags, localUser) {
      assert CIPrincipal(db, tags, localUser, "ci:" + g.projectPath);
    }
  }

  /* ---------------------------------------------------------------- the whole list */

  /** Users and CI grants share one list. */
  ghost predicate Listed(db: Tables, tags: map<string, string>, localUser: string, p: string) {
    UserPrincipal(db, tags, localUser, p) || CIPrincipal(db, tags, localUser, p)
  }

  /** Claims.Principals: the user name, and the address if it is another one. */
  function UserCertPrincipals(username: string, email: string): seq<string> {
    [username] + (if email != "" && email != username then [email] else [])
  }

  /** The stored profile has a nonempty name or address in common with the certificate. */
  predicate SharesName(stored: Profile, principals: seq<string>) {
    (stored.username != "" && stored.username in principals) || (stored.email != "" && stored.email in principals)
  }

  ghost predicate SomeUserShares(
    db: Tables, tags: map<string, string>, localUser: string, principals: seq<string>)
  {
    exists id :: Contributes(db, id, tags, localUser) && SharesName(db.users[id], principals)
  }

  /** A reaching CI grant whose principal the certificate carries. */
  ghost predicate SomeCIGrantNamed(
    db: Tables, tags: map<string, string>, localUser: string, principals: seq<string>)
  {
    exists g :: g in db.ciGrants && Reaches(g.principals, g.tagSelector, tags, localUser)
                && "ci:" + g.projectPath in principals
  }

  /** Exactly when the list meets a certificate's principals, whoever the certificate belongs to. */
  lemma AccessExactly(db: Tables, tags: map<string, string>, localUser: string, principals: seq<string>)
    ensures (exists p :: p in principals && Listed(db, tags, localUser, p))
            <==> SomeUserShares(db, tags, localUser, principals) || SomeCIGrantNamed(db, tags, localUser, principals)
  {
    if id :| Contributes(db, id, tags, localUser) && SharesName(db.users[id], principals) {
      var stored := db.users[id];
      var p := if stored.username != "" && stored.username in principals then stored.username else stored.email;
      assert p in principals && UserPrincipal(db, tags, localUser, p);
    }
    if g :| g in db.ciGrants && Reaches(g.principals, g.tagSelector, tags, localUser)
            && "ci:" + g.projectPath in principals {
      assert CIPrincipal(db, tags, localUser, "ci:" + g.projectPath);
    }
    if p :| p in principals && Listed(db, tags, localUser, p) {
      if UserPrincipal(db, tags, localUser, p) {
        var id :| Contributes(db, id, tags, localUser) && (p == db.users[id].username || p == db.users[id].email);
        assert SharesName(db.users[id], principals);
      }
    }
  }

  /**
   A user certificate opens the local account exactly when a contributing user shares a name or address
   with it, as long as neither its name nor its address starts with "ci:".
   */
  lemma UserAccessExactly(
    db: Tables, tags: map<string, string>, localUser: string, username: string, email: string)
    requires !("ci:" <= username) && !("ci:" <= email)
    ensures (exists p :: p in UserCertPrincipals(username, email) && Listed(db, tags, localUser, p))
            <==> SomeUserShares(db, tags, localUser, UserCertPrincipals(username, email))
  {
    var principals := UserCertPrincipals(username, email);
    AccessExactly(db, tags, localUser, principals);
    forall g | g in db.ciGrants
      ensures "ci:" + g.projectPath !in principals
    {
      assert "ci:" <= "ci:" + g.projectPath;
    }
  }

  /** No contributing user has a name or address of the form of a CI principal. */
  ghost predicate NamesApart(db: Tables, tags: map<string, string>, localUser: string) {
    forall id :: Contributes(db, id, tags, localUser) ==>
      !("ci:" <= db.users[id].username) && !("ci:" <= db.users[id].email)
  }

  /**
   A CI certificate opens it exactly when a reaching CI grant covers the project or a contributing user
   bears the name of one of its principals; with names apart only the grant counts.
   */
  lemma CIWholeAccessExactly(db: Tables, tags: map<string, string>, localUser: string, projectPath: string)
    requires forall g :: g in db.ciGrants ==> g.projectPath != ""
    ensures
      var principals := Prefixed(Namespaces(projectPath));
      var covered := exists g :: g in db.ciGrants && ProjectMatches(g.projectPath, projectPath)
                                 && Reaches(g.principals, g.tagSelector, tags, localUser);
      && ((exists p :: p in principals && Listed(db, tags, localUser, p))
          <==> covered || SomeUserShares(db, tags, localUser, principals))
      && (NamesApart(db, tags, localUser) ==> !SomeUserShares(db, tags, localUser, principals))
  {
    var principals := Prefixed(Namespaces(projectPath));
    AccessExactly(db, tags, localUser, principals);
    forall g | g in db.ciGrants
      ensures ProjectMatches(g.projectPath, projectPath) <==> "ci:" + g.projectPath in principals
    {
      PrincipalsAgreeWithMatching(g.projectPath, projectPath);
    }
    forall p | p in principals
      ensures "ci:" <= p
    {
      var i :| 0 <= i < |principals| && principals[i] == p;
      assert p == "ci:" + Namespaces(projectPath)[i];
    }
  }

  /** Names do collide: a user called "ci:infra", in no group, shares the principal of a CI grant for infra. */
  lemma NamesCollide()
    ensures
      var grant := CIGrant("infra", "", false, "", map[], ["deploy"], 3600);
      var db := Tables(map[], {}, [], [grant]);
      && !SomeUserShares(db, map[], "deploy", UserCertPrincipals("ci:infra", ""))
      && "ci:infra" in UserCertPrincipals("ci:infra", "") && Listed(db, map[], "deploy", "ci:infra")
  {
    var grant := CIGrant("infra", "", false, "", map[], ["deploy"], 3600);
    assert grant in [grant] && Reaches(grant.principals, grant.tagSelector, map[], "deploy");
    assert "ci:infra" == "ci:" + grant.projectPath;
  }

  /** Whoever is not active leaves no trace in any list: the list is the same without the user. */
  lemma InactiveContributesNothing(db: Tables, id: Identity, tags: map<string, string>, localUser: string, p: string)
    requires id in db.users ==> !db.users[id].active
    ensures !Contributes(db, id, tags, localUser)
    ensures UserPrincipal(db, tags, localUser, p)
            <==> UserPrincipal(db.(users := db.users - {id}), tags, localUser, p)
  {
    var without := db.(users := db.users - {id});
    forall other
      ensures Contributes(db, other, tags, localUser) <==> Contributes(without, other, tags, localUser)
    {
    }
  }
}
