/**
 Logins and directory synchronisation: internal/auth/mapper.go and internal/auth/sync.go, observed
 through the host access list.

 Every store call may fail; which ones do is an input (`works`), so the contracts also describe what
 a call that gave up half-way leaves behind.
 */
module Offboarding {
  import opened HostAcl

  datatype Claims = Claims(
    issuer: string, subject: string, preferredUsername: string, email: string, groups: seq<string>)

  datatype DirectoryUser = DirectoryUser(
    subject: string, username: string, email: string, groups: seq<string>, active: bool)

  datatype Login = LoggedIn(profile: Profile) | Refused | Failed

  datatype AuditEvent = UserDeactivated(id: Identity) | UserReactivated(id: Identity)

  type Users = map<Identity, Profile>

  function IndexOfChar(s: string, c: char): (i: int)
    ensures -1 <= i < |s|
  {
    if s == "" then -1
    else if s[0] == c then 0
    else
      var i := IndexOfChar(s[1..], c);
      if i < 0 then -1 else i + 1
  }

  /** The preferred name, else the local part of the address, else the subject. */
  function Username(c: Claims): string {
    var at := IndexOfChar(c.email, '@');
    if c.preferredUsername != "" then c.preferredUsername
    else if at > 0 then c.email[..at]
    else c.subject
  }

  function IdOf(c: Claims): Identity {
    Identity(c.issuer, c.subject)
  }

  /** Group paths lose one leading slash; empty names are dropped. */
  function NormalizeGroups(names: seq<string>): seq<string> {
    if names == [] then []
    else
      var n := if names[0] != "" && names[0][0] == '/' then names[0][1..] else names[0];
      (if n == "" then [] else [n]) + NormalizeGroups(names[1..])
  }

  predicate Distinct(names: seq<string>) {
    forall i, j :: 0 <= i < j < |names| ==> names[i] != names[j]
  }

  function GroupsNamed(issuer: string, names: seq<string>): set<Group> {
    set n | n in names :: Group(issuer, n)
  }

  function MembershipsOf(ms: set<Membership>, id: Identity): set<Group> {
    set m | m in ms && m.user == id :: m.group
  }

  /** The directory by subject; a later entry replaces an earlier one. */
  function BySubject(directory: seq<DirectoryUser>): map<string, DirectoryUser> {
    if directory == [] then map[]
    else BySubject(directory[..|directory| - 1])[directory[|directory| - 1].subject := directory[|directory| - 1]]
  }

  /** The profile of a user the directory lists as active; empty fields there do not overwrite. */
  function Merged(user: Profile, du: DirectoryUser): Profile {
    Profile(if du.username != "" then du.username else user.username,
            if du.email != "" then du.email else user.email, true)
  }

  /** Missing from the directory or disabled in it. */
  predicate Gone(directory: seq<DirectoryUser>, subject: string) {
    var listed := BySubject(directory);
    subject in listed ==> !listed[subject].active
  }

  /* ---------------------------------------------------------------- what one call may do */

  /** A login touches only its own user, and an inactive user not at all. */
  ghost predicate LoginEffect(users: Users, users': Users, c: Claims, r: Login) {
    var id := IdOf(c);
    && (forall i :: i != id ==> (i in users <==> i in users') && (i in users ==> users'[i] == users[i]))
    && (id in users && !users[id].active ==> !r.LoggedIn? && users' == users)
    && (r.Refused? ==> id in users && !users[id].active)
    && (r.LoggedIn? ==> id in users' && users'[id] == r.profile == Profile(Username(c), c.email, true))
    && (id in users ==> id in users')
    && (id in users' ==> users'[id] == Profile(Username(c), c.email, true) || (id in users && users'[id] == users[id]))
  }

  /** What a synchronisation makes of a user. */
  function Target(user: Profile, id: Identity, directory: seq<DirectoryUser>): Profile {
    if Gone(directory, id.subject) then user.(active := false) else Merged(user, BySubject(directory)[id.subject])
  }

  /** What a synchronisation of a user writes to the audit trail: an event exactly if the active status changes. */
  function Noted(was: Profile, id: Identity, directory: seq<DirectoryUser>): seq<AuditEvent> {
    if was.active == !Gone(directory, id.subject) then []
    else [if was.active then UserDeactivated(id) else UserReactivated(id)]
  }

  /** The events about one user, in order. */
  function About(audit: seq<AuditEvent>, id: Identity): seq<AuditEvent> {
    if audit == [] then []
    else About(audit[..|audit| - 1], id) + if audit[|audit| - 1].id == id then [audit[|audit| - 1]] else []
  }

  /** The groups a synchronisation leaves a user; one who is gone and was inactive before keeps them. */
  function TargetGroups(user: Profile, had: set<Group>, id: Identity, directory: seq<DirectoryUser>): set<Group> {
    if !Gone(directory, id.subject) then
      GroupsNamed(id.issuer, NormalizeGroups(BySubject(directory)[id.subject].groups))
    else if user.active then {} else had
  }

  datatype Snapshot = Snapshot(users: Users, memberships: set<Membership>, audit: seq<AuditEvent>)

  /** A user the pass has dealt with: profile, groups and audit trail. */
  predicate Synced(was: Snapshot, now: Snapshot, id: Identity, directory: seq<DirectoryUser>) {
    && id in was.users && id in now.users && now.users[id] == Target(was.users[id], id, directory)
    && MembershipsOf(now.memberships, id)
       == TargetGroups(was.users[id], MembershipsOf(was.memberships, id), id, directory)
    && About(now.audit, id) == About(was.audit, id) + Noted(was.users[id], id, directory)
  }

  /** A user nothing happened to. */
  predicate Untouched(was: Snapshot, now: Snapshot, id: Identity) {
    && (id in was.users <==> id in now.users) && (id in was.users ==> now.users[id] == was.users[id])
    && MembershipsOf(now.memberships, id) == MembershipsOf(was.memberships, id)
    && About(now.audit, id) == About(was.audit, id)
  }

  /** A synchronisation touches only users of its issuer and never revives one who is gone. */
  ghost predicate SyncEffect(users: Users, users': Users, issuer: string, directory: seq<DirectoryUser>, ok: bool) {
    && users'.Keys == users.Keys
    && forall i :: i in users ==>
         if i.issuer != issuer then users'[i] == users[i]
         else
           && (users'[i] == users[i] || users'[i] == Target(users[i], i, directory))
           && (ok ==> users'[i] == Target(users[i], i, directory))
  }

  /** Every name can be resolved or created; the calls for the names are counted from the fifth on. */
  predicate GroupsWork(names: seq<string>, works: nat -> bool) {
    forall k :: 4 <= k < 4 + |names| ==> works(k)
  }

  /** When a login goes through: the user may log in, the store works, and no group is claimed twice. */
  predicate LoginSucceeds(users: Users, c: Claims, works: nat -> bool) {
    var id := IdOf(c);
    && works(0) && (id in users ==> users[id].active)
    && (id !in users || users[id].username != Username(c) || users[id].email != c.email ==> works(1))
    && works(3) && GroupsWork(c.groups, works) && Distinct(c.groups)
  }

  /** When a pass gets through a user: the store works, and the normalised group names differ. */
  predicate SyncSucceeds(user: Profile, id: Identity, directory: seq<DirectoryUser>, works: nat -> bool) {
    if Gone(directory, id.subject) then user.active ==> works(0) && works(1) && works(2)
    else
      var du := BySubject(directory)[id.subject];
      var names := NormalizeGroups(du.groups);
      && (Merged(user, du) != user ==> works(0)) && works(2) && (!user.active ==> works(3))
      && GroupsWork(names, works) && Distinct(names)
  }

  /** A pass with the users in `todo` before it: the others of its issuer are done, and it went well so far. */
  ghost predicate Underway(was: Snapshot, now: Snapshot, issuer: string, directory: seq<DirectoryUser>,
                           works: Identity -> nat -> bool, todo: set<Identity>)
  {
    && now.users.Keys == was.users.Keys
    && (forall i :: i in todo ==> i in was.users && i.issuer == issuer)
    && (forall i :: i in todo || i.issuer != issuer ==> Untouched(was, now, i))
    && (forall i :: i in was.users && i !in todo && i.issuer == issuer ==>
          Synced(was, now, i, directory) && SyncSucceeds(was.users[i], i, directory, works(i)))
  }

  lemma OneMoreStep(was: Snapshot, mid: Snapshot, now: Snapshot, i: Identity, directory: seq<DirectoryUser>)
    ensures Untouched(was, mid, i) && Untouched(mid, now, i) ==> Untouched(was, now, i)
    ensures Untouched(was, mid, i) && Synced(mid, now, i, directory) ==> Synced(was, now, i, directory)
    ensures Synced(was, mid, i, directory) && Untouched(mid, now, i) ==> Synced(was, now, i, directory)
  {
  }

  lemma UnderwayAdvances(was: Snapshot, mid: Snapshot, now: Snapshot, issuer: string, directory: seq<DirectoryUser>,
                         works: Identity -> nat -> bool, todo: set<Identity>, id: Identity)
    requires Underway(was, mid, issuer, directory, works, todo) && id in todo
    requires now.users.Keys == mid.users.Keys && forall i :: i != id ==> Untouched(mid, now, i)
    requires Synced(mid, now, id, directory) && SyncSucceeds(mid.users[id], id, directory, works(id))
    ensures Underway(was, now, issuer, directory, works, todo - {id})
  {
    forall i | i in todo - {id} || i.issuer != issuer
      ensures Untouched(was, now, i)
    {
      OneMoreStep(was, mid, now, i, directory);
    }
    forall i | i in was.users && i !in todo - {id} && i.issuer == issuer
      ensures Synced(was, now, i, directory)
    {
      OneMoreStep(was, mid, now, i, directory);
    }
  }

  lemma Finished(was: Snapshot, now: Snapshot, issuer: string, directory: seq<DirectoryUser>,
                 works: Identity -> nat -> bool)
    requires Underway(was, now, issuer, directory, works, {})
    ensures SyncEffect(was.users, now.users, issuer, directory, true)
    ensures forall i :: i in was.users && i.issuer == issuer ==>
              Synced(was, now, i, directory) && SyncSucceeds(was.users[i], i, directory, works(i))
    ensures forall i: Identity :: i.issuer != issuer ==> Untouched(was, now, i)
  {
    forall i | i in was.users && i.issuer != issuer
      ensures now.users[i] == was.users[i]
    {
      assert Untouched(was, now, i);
    }
  }

  lemma StoppedAt(was: Snapshot, mid: Snapshot, now: Snapshot, issuer: string, directory: seq<DirectoryUser>,
                  works: Identity -> nat -> bool, todo: set<Identity>, id: Identity)
    requires Underway(was, mid, issuer, directory, works, todo) && id in todo
    requires now.users.Keys == mid.users.Keys && forall i :: i != id ==> Untouched(mid, now, i)
    requires now.users[id] == mid.users[id] || now.users[id] == Target(mid.users[id], id, directory)
    ensures SyncEffect(was.users, now.users, issuer, directory, false)
    ensures was.users[id] == mid.users[id] && id in was.users && id.issuer == issuer
    ensures forall i: Identity :: i.issuer != issuer ==> Untouched(was, now, i)
  {
    assert Untouched(was, mid, id);
    forall i | i in was.users && i != id
      ensures now.users[i] == mid.users[i]
      ensures i.issuer != issuer || i in todo ==> now.users[i] == was.users[i]
      ensures i.issuer == issuer && i !in todo ==> now.users[i] == Target(was.users[i], i, directory)
    {
      assert Untouched(mid, now, i);
      if i.issuer != issuer || i in todo {
        assert Untouched(was, mid, i);
      } else {
        assert Synced(was, mid, i, directory);
      }
    }
    forall i: Identity | i.issuer != issuer
      ensures Untouched(was, now, i)
    {
      assert Untouched(was, mid, i) && Untouched(mid, now, i);
    }
  }

  class Directory {
    var users: Users
    var groups: set<Group>
    var memberships: set<Membership>
    var audit: seq<AuditEvent>

    ghost function View(): Snapshot
      reads this
    {
      Snapshot(users, memberships, audit)
    }

    /** Resolves group names and creates unknown groups; what was created before a failure stays. */
    method EnsureGroups(issuer: string, names: seq<string>, works: nat -> bool) returns (ids: seq<Group>, ok: bool)
      modifies this`groups
      ensures ok <==> GroupsWork(names, works)
      ensures old(groups) <= groups <= old(groups) + GroupsNamed(issuer, names)
      ensures ok ==> |ids| == |names| && (forall k :: 0 <= k < |ids| ==> ids[k] == Group(issuer, names[k]))
                     && GroupsNamed(issuer, names) <= groups
    {
      ids := [];
      for k := 0 to |names|
        invariant forall j :: 4 <= j < 4 + k ==> works(j)
        invariant |ids| == k && forall j :: 0 <= j < k ==> ids[j] == Group(issuer, names[j]) && ids[j] in groups
        invariant old(groups) <= groups <= old(groups) + GroupsNamed(issuer, names)
      {
        if !works(4 + k) { return ids, false; }
        var g := Group(issuer, names[k]);
        if g !in groups {
          groups := groups + {g};
        }
        ids := ids + [g];
      }
      assert forall k :: 0 <= k < |names| ==> Group(issuer, names[k]) == ids[k];
      return ids, true;
    }

    /** Replaces the memberships of a user; naming a group twice violates the primary key. */
    method SetUserGroups(id: Identity, ids: seq<Group>, works: bool) returns (ok: bool)
      modifies this`memberships
      ensures ok <==> works && forall i, j :: 0 <= i < j < |ids| ==> ids[i] != ids[j]
      ensures !ok ==> memberships == old(memberships)
      ensures ok ==> MembershipsOf(memberships, id) == (set g | g in ids)
      ensures forall m :: m in old(memberships) && m.user != id ==> m in memberships
      ensures forall m :: m in memberships && m.user != id ==> m in old(memberships)
    {
      ok := works && forall i, j :: 0 <= i < j < |ids| ==> ids[i] != ids[j];
      if ok {
        memberships := (set m | m in memberships && m.user != id) + (set g | g in ids :: Membership(id, g));
        assert forall g :: g in ids ==> Membership(id, g) in memberships;
      }
    }

    /** Resolves the names and makes the user a member of exactly these groups. */
    method TakeOverGroups(id: Identity, names: seq<string>, works: nat -> bool, sets: bool) returns (ok: bool)
      modifies this`groups, this`memberships
      ensures ok <==> sets && GroupsWork(names, works) && Distinct(names)
      ensures old(groups) <= groups
      ensures ok ==> MembershipsOf(memberships, id) == GroupsNamed(id.issuer, names) <= groups
      ensures !ok ==> memberships == old(memberships)
      ensures forall m: Membership :: m.user != id ==> (m in memberships <==> m in old(memberships))
    {
      var ids;
      ids, ok := EnsureGroups(id.issuer, names, works);
      if !ok { return; }
      ok := SetUserGroups(id, ids, sets);
      assert (set g | g in ids) == GroupsNamed(id.issuer, names) by {
        assert forall n :: n in names ==> exists k :: 0 <= k < |ids| && names[k] == n && ids[k] == Group(id.issuer, n);
      }
    }

    method EnsureUser(c: Claims, works: nat -> bool) returns (r: Login)
      modifies this
      ensures LoginEffect(old(users), users, c, r)
      ensures r.LoggedIn? <==> LoginSucceeds(old(users), c, works)
      ensures r.Refused? <==> works(0) && IdOf(c) in old(users) && !old(users)[IdOf(c)].active
      ensures r.LoggedIn? ==> MembershipsOf(memberships, IdOf(c)) == GroupsNamed(c.issuer, c.groups) <= groups
      ensures !r.LoggedIn? ==> memberships == old(memberships)
      ensures forall m: Membership :: m.user != IdOf(c) ==> (m in memberships <==> m in old(memberships))
      ensures old(groups) <= groups && audit == old(audit)
    {
      var id := IdOf(c);
      if !works(0) {
        return Failed;
      }
      if id !in users {
        if !works(1) { return Failed; }
        users := users[id := Profile(Username(c), c.email, true)];
      } else if !users[id].active {
        return Refused;
      } else if users[id].username != Username(c) || users[id].email != c.email {
        if !works(1) { return Failed; }
        users := users[id := Profile(Username(c), c.email, true)];
      }
      var ok := TakeOverGroups(id, c.groups, works, works(3));
      if !ok { return Failed; }
      return LoggedIn(users[id]);
    }

    /** Marks the user inactive and revokes all groups; nothing to do if already inactive. */
    method Deactivate(id: Identity, works: nat -> bool) returns (ok: bool)
      requires id in users
      modifies this`users, this`memberships, this`audit
      ensures ok <==> (old(users)[id].active ==> works(0) && works(1) && works(2))
      ensures users == old(users) || users == old(users)[id := old(users)[id].(active := false)]
      ensures ok ==> !users[id].active
      ensures ok && old(users)[id].active ==>
                MembershipsOf(memberships, id) == {} && audit == old(audit) + [UserDeactivated(id)]
      ensures !ok || !old(users)[id].active ==> audit == old(audit)
      ensures !old(users)[id].active ==> memberships == old(memberships)
      ensures forall m: Membership :: m.user != id ==> (m in memberships <==> m in old(memberships))
    {
      if !users[id].active {
        return true;
      }
      if !works(0) { return false; }
      users := users[id := users[id].(active := false)];
      ok := SetUserGroups(id, [], works(1));
      if !ok || !works(2) { return false; }
      audit := audit + [UserDeactivated(id)];
    }

    /** Takes over profile, active status and groups from the directory. */
    method Reconcile(id: Identity, du: DirectoryUser, works: nat -> bool) returns (ok: bool)
      requires id in users
      modifies this
      ensures
        var user, names := old(users)[id], NormalizeGroups(du.groups);
        ok <==> (Merged(user, du) != user ==> works(0)) && works(2) && (!user.active ==> works(3))
                && GroupsWork(names, works) && Distinct(names)
      ensures users.Keys == old(users).Keys && forall i :: i in users && i != id ==> users[i] == old(users)[i]
      ensures users[id] == old(users)[id] || users[id] == Merged(old(users)[id], du)
      ensures ok ==> users[id] == Merged(old(users)[id], du)
      ensures ok ==> MembershipsOf(memberships, id) == GroupsNamed(id.issuer, NormalizeGroups(du.groups))
      ensures forall m: Membership :: m.user != id ==> (m in memberships <==> m in old(memberships))
      ensures audit == if ok && !old(users)[id].active then old(audit) + [UserReactivated(id)] else old(audit)
    {
      var user := users[id];
      var username := if du.username != "" then du.username else user.username;
      var email := if du.email != "" then du.email else user.email;
      if !user.active || user.username != username || user.email != email {
        if !works(0) { return false; }
        users := users[id := Profile(username, email, true)];
      }
      ok := TakeOverGroups(id, NormalizeGroups(du.groups), works, works(2));
      if !ok { return; }
      if !user.active {
        if !works(3) { return false; }
        audit := audit + [UserReactivated(id)];
      }
    }

    /** Deactivates a user who is gone, reconciles one who is not. */
    method SyncUser(id: Identity, directory: seq<DirectoryUser>, works: nat -> bool) returns (ok: bool)
      requires id in users
      modifies this
      ensures ok <==> SyncSucceeds(old(users)[id], id, directory, works)
      ensures users.Keys == old(users).Keys && forall i :: i != id ==> Untouched(old(View()), View(), i)
      ensures users[id] == old(users)[id] || users[id] == Target(old(users)[id], id, directory)
      ensures ok ==> Synced(old(View()), View(), id, directory)
      ensures !ok ==> audit == old(audit)
    {
      var listed := BySubject(directory);
      if id.subject !in listed || !listed[id.subject].active {
        ok := Deactivate(id, works);
      } else {
        ok := Reconcile(id, listed[id.subject], works);
      }
      if audit != old(audit) {
        assert audit[..|audit| - 1] == old(audit);
      }
    }

    /** One pass over the known users of the issuer, in any order; it stops at the first error. */
    method SyncOnce(issuer: string, directory: seq<DirectoryUser>, loads: bool, works: Identity -> nat -> bool)
      returns (ok: bool)
      modifies this
      ensures SyncEffect(old(users), users, issuer, directory, ok)
      ensures ok <==> loads && forall i :: i in old(users) && i.issuer == issuer ==>
                                 SyncSucceeds(old(users)[i], i, directory, works(i))
      ensures ok ==> forall i :: i in users && i.issuer == issuer ==> Synced(old(View()), View(), i, directory)
      ensures forall i: Identity :: i.issuer != issuer ==> Untouched(old(View()), View(), i)
    {
      if !loads { return false; }
      var todo := set i | i in users.Keys && i.issuer == issuer;
      ghost var was := View();
      while todo != {}
        invariant Underway(was, View(), issuer, directory, works, todo)
        decreases |todo|
      {
        var id :| id in todo;
        ghost var mid := View();
        ok := SyncUser(id, directory, works(id));
        if !ok {
          StoppedAt(was, mid, View(), issuer, directory, works, todo, id);
          return false;
        }
        UnderwayAdvances(was, mid, View(), issuer, directory, works, todo, id);
        todo := todo - {id};
      }
      Finished(was, View(), issuer, directory, works);
      return true;
    }
  }

  /* ---------------------------------------------------------------- whole runs */

  datatype Step =
    | LoginStep(claims: Claims, result: Login)
    | SyncStep(issuer: string, directory: seq<DirectoryUser>, ok: bool)

  ghost predicate Effect(users: Users, users': Users, step: Step) {
    match step
    case LoginStep(c, r) => LoginEffect(users, users', c, r)
    case SyncStep(issuer, directory, ok) => SyncEffect(users, users', issuer, directory, ok)
  }

  /** A sequential run of logins and synchronisations, successful or not, given by its states. */
  ghost predicate IsRun(states: seq<Users>, steps: seq<Step>) {
    && |states| == |steps| + 1
    && forall k :: 0 <= k < |steps| ==> Effect(states[k], states[k + 1], steps[k])
  }

  /** No synchronisation in steps [from, to) sees the user active. */
  predicate StaysGone(steps: seq<Step>, id: Identity, from: nat, to: nat)
    requires to <= |steps|
  {
    forall k :: from <= k < to && steps[k].SyncStep? && steps[k].issuer == id.issuer ==>
      Gone(steps[k].directory, id.subject)
  }

  lemma {:induction false} InactiveStaysInactive(states: seq<Users>, steps: seq<Step>, id: Identity, n: nat, m: nat)
    requires IsRun(states, steps) && n <= m < |states| && StaysGone(steps, id, n, m)
    requires id in states[n] && !states[n][id].active
    ensures id in states[m] && !states[m][id].active
    decreases m - n
  {
    if n < m {
      InactiveStaysInactive(states, steps, id, n, m - 1);
      assert Effect(states[m - 1], states[m], steps[m - 1]);
    }
  }

  /**
   Offboarding: after a successful synchronisation a known user who is missing or disabled is refused
   by every later login and contributes no principal on any host, until a synchronisation sees the
   user active again.
   */
  lemma OffboardedStaysOut(states: seq<Users>, steps: seq<Step>, id: Identity, n: nat, m: nat)
    requires IsRun(states, steps) && n < m < |states|
    requires id in states[n] && steps[n].SyncStep? && steps[n].ok && steps[n].issuer == id.issuer
    requires StaysGone(steps, id, n, m)
    ensures forall db: Tables, tags, localUser :: db.users == states[m] ==> !Contributes(db, id, tags, localUser)
    ensures m < |steps| && steps[m].LoginStep? && IdOf(steps[m].claims) == id ==>
              !steps[m].result.LoggedIn? && states[m + 1] == states[m]
  {
    assert Effect(states[n], states[n + 1], steps[n]);
    InactiveStaysInactive(states, steps, id, n + 1, m);
    if m < |steps| {
      assert Effect(states[m], states[m + 1], steps[m]);
    }
  }
}
