/**
 Logins against directory synchronisation (internal/auth/mapper.go, internal/auth/sync.go) with every
 store call as one atomic step. A login that read a user as active before a pass deactivated that user
 may still write the profile it read back, `active` included; this module says exactly when that happens.
 */
module OffboardingConcurrency {
  import opened HostAcl
  import opened Offboarding

  type Op = nat

  /** What a pass has in hand: the directory, and the users as they were when it listed them. */
  datatype Pass = Pass(issuer: string, directory: seq<DirectoryUser>, listed: Users)

  /** Program counters. Resolving group names touches no users and no memberships and is no step here. */
  datatype Pc =
    | LoginReads(claims: Claims)
    | LoginCreates(claims: Claims)
    | LoginUpdates(claims: Claims)
    | LoginSetsGroups(claims: Claims)
    | LoginDone(claims: Claims)
    | LoginRefused(claims: Claims)
    | PassLists(issuer: string, directory: seq<DirectoryUser>)
    | PassNext(pass: Pass, todo: set<Identity>)
    | PassRevokes(pass: Pass, todo: set<Identity>, user: Identity)
    | PassSetsGroups(pass: Pass, todo: set<Identity>, user: Identity)
    | PassAudits(pass: Pass, todo: set<Identity>)
    | PassDone(pass: Pass)
    | GaveUp

  datatype State = State(users: Users, memberships: set<Membership>, pcs: map<Op, Pc>)

  /** `user` is the one a pass takes next; other operations ignore it. */
  datatype Step =
    | StartLogin(op: Op, claims: Claims)
    | StartPass(op: Op, issuer: string, directory: seq<DirectoryUser>)
    | Advance(op: Op, user: Identity)
    | Fail(op: Op)

  predicate Ended(pc: Pc) {
    pc.LoginDone? || pc.LoginRefused? || pc.PassDone? || pc.GaveUp?
  }

  predicate Enabled(s: State, step: Step) {
    match step
    case StartLogin(op, _) => op !in s.pcs
    case StartPass(op, _, _) => op !in s.pcs
    case Advance(op, user) =>
      && op in s.pcs && !Ended(s.pcs[op])
      && (s.pcs[op].PassNext? && s.pcs[op].todo != {} ==> user in s.pcs[op].todo && user in s.pcs[op].pass.listed)
    case Fail(op) => op in s.pcs && !Ended(s.pcs[op])
  }

  /** The claims as a profile; a login only writes it for a user it read as active. */
  function FromClaims(c: Claims): Profile {
    Profile(Username(c), c.email, true)
  }

  function WithGroups(ms: set<Membership>, id: Identity, groups: set<Group>): set<Membership> {
    (set m | m in ms && m.user != id) + (set g | g in groups :: Membership(id, g))
  }

  /** The next store call of a login. */
  function LoginAdvanced(s: State, op: Op): State
    requires op in s.pcs
  {
    match s.pcs[op]
    case LoginReads(c) =>
      var id := IdOf(c);
      s.(pcs := s.pcs[op :=
        if id !in s.users then LoginCreates(c)
        else if !s.users[id].active then LoginRefused(c)
        else if s.users[id] != FromClaims(c) then LoginUpdates(c)
        else LoginSetsGroups(c)])
    case LoginCreates(c) =>
      if IdOf(c) in s.users then s.(pcs := s.pcs[op := GaveUp])
      else s.(users := s.users[IdOf(c) := FromClaims(c)], pcs := s.pcs[op := LoginSetsGroups(c)])
    case LoginUpdates(c) => s.(users := s.users[IdOf(c) := FromClaims(c)], pcs := s.pcs[op := LoginSetsGroups(c)])
    case LoginSetsGroups(c) =>
      if !Distinct(c.groups) then s.(pcs := s.pcs[op := GaveUp])
      else s.(memberships := WithGroups(s.memberships, IdOf(c), GroupsNamed(c.issuer, c.groups)),
              pcs := s.pcs[op := LoginDone(c)])
    case _ => s
  }

  /** A pass takes a user: deactivates, updates, or finds the profile as it should be. */
  function PassTakes(s: State, op: Op, pass: Pass, todo: set<Identity>, id: Identity): State
    requires id in pass.listed
  {
    var was := pass.listed[id];
    if Gone(pass.directory, id.subject) then
      if !was.active then s.(pcs := s.pcs[op := PassNext(pass, todo)])
      else s.(users := s.users[id := was.(active := false)], pcs := s.pcs[op := PassRevokes(pass, todo, id)])
    else
      var merged := Merged(was, BySubject(pass.directory)[id.subject]);
      s.(users := if merged != was then s.users[id := merged] else s.users,
         pcs := s.pcs[op := PassSetsGroups(pass, todo, id)])
  }

  /** The next store call of a pass. */
  function PassAdvanced(s: State, op: Op, user: Identity): State
    requires Enabled(s, Advance(op, user))
  {
    match s.pcs[op]
    case PassLists(issuer, directory) =>
      var todo := set i | i in s.users.Keys && i.issuer == issuer;
      s.(pcs := s.pcs[op := PassNext(Pass(issuer, directory, s.users), todo)])
    case PassNext(pass, todo) =>
      if todo == {} then s.(pcs := s.pcs[op := PassDone(pass)]) else PassTakes(s, op, pass, todo - {user}, user)
    case PassRevokes(pass, todo, id) =>
      s.(memberships := WithGroups(s.memberships, id, {}), pcs := s.pcs[op := PassAudits(pass, todo)])
    case PassSetsGroups(pass, todo, id) =>
      var subjects := BySubject(pass.directory);
      var names := if id.subject in subjects then NormalizeGroups(subjects[id.subject].groups) else [];
      if !Distinct(names) then s.(pcs := s.pcs[op := GaveUp])
      else s.(memberships := WithGroups(s.memberships, id, GroupsNamed(id.issuer, names)),
              pcs := s.pcs[op := if id in pass.listed && !pass.listed[id].active then PassAudits(pass, todo)
                                 else PassNext(pass, todo)])
    case PassAudits(pass, todo) => s.(pcs := s.pcs[op := PassNext(pass, todo)])
    case _ => s
  }

  predicate IsLogin(pc: Pc) {
    pc.LoginReads? || pc.LoginCreates? || pc.LoginUpdates? || pc.LoginSetsGroups?
  }

  function Next(s: State, step: Step): State
    requires Enabled(s, step)
  {
    match step
    case StartLogin(op, c) => s.(pcs := s.pcs[op := LoginReads(c)])
    case StartPass(op, issuer, directory) => s.(pcs := s.pcs[op := PassLists(issuer, directory)])
    case Advance(op, user) => if IsLogin(s.pcs[op]) then LoginAdvanced(s, op) else PassAdvanced(s, op, user)
    case Fail(op) => s.(pcs := s.pcs[op := GaveUp])
  }

  ghost predicate StepAt(states: seq<State>, steps: seq<Step>, k: nat)
    requires |states| == |steps| + 1 && k < |steps|
  {
    Enabled(states[k], steps[k]) && states[k + 1] == Next(states[k], steps[k])
  }

  /** A run that starts with no operation underway. */
  ghost predicate IsRun(states: seq<State>, steps: seq<Step>) {
    && |states| == |steps| + 1 && states[0].pcs == map[]
    && forall k :: 0 <= k < |steps| ==> StepAt(states, steps, k)
  }

  /* ---------------------------------------------------------------- without overlap */

  /** The next steps of an operation, with no other in between; the users of a pass come as given. */
  ghost predicate AdvancesAlone(states: seq<State>, op: Op, user: Identity) {
    && states != []
    && forall k :: 0 <= k < |states| - 1 ==>
         Enabled(states[k], Advance(op, user)) && states[k + 1] == Next(states[k], Advance(op, user))
  }

  lemma WithGroupsExactly(ms: set<Membership>, id: Identity, groups: set<Group>)
    ensures MembershipsOf(WithGroups(ms, id, groups), id) == groups
    ensures forall m: Membership :: m.user != id ==> (m in WithGroups(ms, id, groups) <==> m in ms)
  {
    assert forall g :: g in groups ==> Membership(id, g) in WithGroups(ms, id, groups);
  }

  /** What a login without overlap comes to is what a sequential one may do, and when it goes through. */
  lemma LoneLogin(states: seq<State>, op: Op, user: Identity, c: Claims)
    requires AdvancesAlone(states, op, user) && op in states[0].pcs && states[0].pcs[op] == LoginReads(c)
    requires var last := states[|states| - 1]; op in last.pcs && Ended(last.pcs[op])
    ensures
      var s, s', id := states[0], states[|states| - 1], IdOf(c);
      var pc, profile := s'.pcs[op], Profile(Username(c), c.email, true);
      && (pc.LoginRefused? <==> id in s.users && !s.users[id].active)
      && (pc.LoginDone? <==> !pc.LoginRefused? && Distinct(c.groups))
      && LoginEffect(s.users, s'.users, c,
                     if pc.LoginDone? then LoggedIn(profile) else if pc.LoginRefused? then Refused else Failed)
      && MembershipsOf(s'.memberships, id)
         == (if pc.LoginDone? then GroupsNamed(c.issuer, c.groups) else MembershipsOf(s.memberships, id))
      && forall m: Membership :: m.user != id ==> (m in s'.memberships <==> m in s.memberships)
  {
    var step := Advance(op, user);
    WithGroupsExactly(states[0].memberships, IdOf(c), GroupsNamed(c.issuer, c.groups));
    assert states[1] == Next(states[0], step);
    if |states| > 2 {
      assert Enabled(states[1], step) && states[2] == Next(states[1], step);
    }
    if |states| > 3 {
      assert Enabled(states[2], step) && states[3] == Next(states[2], step);
    }
  }

  /** A pass that takes a user without overlap comes back to the others with this user synchronised. */
  lemma LoneTaking(states: seq<State>, op: Op, pass: Pass, todo: set<Identity>, id: Identity)
    requires AdvancesAlone(states, op, id) && op in states[0].pcs && states[0].pcs[op] == PassNext(pass, todo)
    requires id in todo && id in pass.listed && id in states[0].users && states[0].users[id] == pass.listed[id]
    requires |states| > 1 && forall k :: 0 < k < |states| - 1 ==> op in states[k].pcs && !states[k].pcs[op].PassNext?
    requires var last := states[|states| - 1]; op in last.pcs && (last.pcs[op].PassNext? || Ended(last.pcs[op]))
    ensures
      var s, s' := states[0], states[|states| - 1];
      var pc, subjects := s'.pcs[op], BySubject(pass.directory);
      && s'.users == s.users[id := Target(s.users[id], id, pass.directory)]
      && (pc.PassNext? <==>
            (!Gone(pass.directory, id.subject) ==> Distinct(NormalizeGroups(subjects[id.subject].groups))))
      && pc == (if pc.PassNext? then PassNext(pass, todo - {id}) else GaveUp)
      && MembershipsOf(s'.memberships, id)
         == (if pc.PassNext? then TargetGroups(s.users[id], MembershipsOf(s.memberships, id), id, pass.directory)
             else MembershipsOf(s.memberships, id))
      && forall m: Membership :: m.user != id ==> (m in s'.memberships <==> m in s.memberships)
  {
    var step, s := Advance(op, id), states[0];
    WithGroupsExactly(s.memberships, id, TargetGroups(s.users[id], {}, id, pass.directory));
    assert states[1] == Next(s, step);
    if |states| > 2 {
      assert Enabled(states[1], step) && states[2] == Next(states[1], step);
    }
    if |states| > 3 {
      assert Enabled(states[2], step) && states[3] == Next(states[2], step);
      assert states[2].pcs[op].PassAudits?;
    }
  }

  /* ---------------------------------------------------------------- who can revive a user */

  predicate Inactive(s: State, id: Identity) {
    id in s.users && !s.users[id].active
  }

  /** A login that read the user as active and has not written the profile yet. */
  predicate PendingLogin(s: State, op: Op, id: Identity) {
    op in s.pcs && s.pcs[op].LoginUpdates? && IdOf(s.pcs[op].claims) == id
  }

  /** The write of such a login. */
  predicate StaleWrite(s: State, step: Step, id: Identity) {
    step.Advance? && PendingLogin(s, step.op, id)
  }

  /** The write of a pass whose directory lists the user as active. */
  predicate Reactivates(s: State, step: Step, id: Identity) {
    && step.Advance? && step.op in s.pcs && s.pcs[step.op].PassNext? && s.pcs[step.op].todo != {} && step.user == id
    && id in s.pcs[step.op].pass.listed && !Gone(s.pcs[step.op].pass.directory, id.subject)
  }

  /** An inactive user becomes active in a stale write, and otherwise only where a pass sees the user active. */
  lemma StepRevivesExactly(s: State, step: Step, id: Identity)
    requires Enabled(s, step) && Inactive(s, id)
    ensures !Reactivates(s, step, id) ==> (Inactive(Next(s, step), id) <==> !StaleWrite(s, step, id))
  {
  }

  /** While the user is inactive no login becomes pending: one that reads the user is refused. */
  lemma NoNewPendingLogin(s: State, step: Step, op: Op, id: Identity)
    requires Enabled(s, step) && Inactive(s, id) && PendingLogin(Next(s, step), op, id)
    ensures PendingLogin(s, op, id)
  {
  }

  predicate ReadsUser(s: State, step: Step, id: Identity) {
    step.Advance? && step.op in s.pcs && s.pcs[step.op].LoginReads? && IdOf(s.pcs[step.op].claims) == id
  }

  /** No pass writes the user as active in steps [from, to). */
  ghost predicate NeverReactivated(states: seq<State>, steps: seq<Step>, id: Identity, from: nat, to: nat)
    requires IsRun(states, steps) && to <= |steps|
  {
    forall k :: from <= k < to ==> !Reactivates(states[k], steps[k], id)
  }

  /** No login writes the user back in steps [from, to). */
  ghost predicate NoStaleWrite(states: seq<State>, steps: seq<Step>, id: Identity, from: nat, to: nat)
    requires IsRun(states, steps) && to <= |steps|
  {
    forall k :: from <= k < to ==> !StaleWrite(states[k], steps[k], id)
  }

  /** Without a stale write the user stays inactive, and every pending login was pending from the start. */
  lemma {:induction false} StaysInactive(states: seq<State>, steps: seq<Step>, id: Identity, n: nat, m: nat)
    requires IsRun(states, steps) && n <= m < |states| && Inactive(states[n], id)
    requires NeverReactivated(states, steps, id, n, m) && NoStaleWrite(states, steps, id, n, m)
    ensures Inactive(states[m], id)
    ensures forall op :: PendingLogin(states[m], op, id) ==> PendingLogin(states[n], op, id)
    decreases m - n
  {
    if n < m {
      StaysInactive(states, steps, id, n, m - 1);
      assert StepAt(states, steps, m - 1);
      var s, step := states[m - 1], steps[m - 1];
      StepRevivesExactly(s, step, id);
      forall op | PendingLogin(states[m], op, id)
        ensures PendingLogin(states[n], op, id)
      {
        NoNewPendingLogin(s, step, op, id);
      }
    }
  }

  /**
   The exact condition: a user who is inactive at moment n, and whom no pass sees active up to moment m,
   is inactive at every moment between them exactly when no login that is pending at n writes in between.
   */
  lemma InactiveExactly(states: seq<State>, steps: seq<Step>, id: Identity, n: nat, m: nat)
    requires IsRun(states, steps) && n <= m < |states| && Inactive(states[n], id)
    requires NeverReactivated(states, steps, id, n, m)
    ensures (forall k :: n <= k <= m ==> Inactive(states[k], id))
            <==> forall k :: n <= k < m && steps[k].Advance? && PendingLogin(states[n], steps[k].op, id) ==>
                   !StaleWrite(states[k], steps[k], id)
  {
    if forall k :: n <= k <= m ==> Inactive(states[k], id) {
      forall k | n <= k < m
        ensures !StaleWrite(states[k], steps[k], id)
      {
        assert StepAt(states, steps, k) && Inactive(states[k], id) && Inactive(states[k + 1], id);
        StepRevivesExactly(states[k], steps[k], id);
      }
    } else {
      var k :| n <= k <= m && !Inactive(states[k], id);
      var l := FirstStaleWrite(states, steps, id, n, k);
    }
  }

  /** A user who is no longer inactive owes it to a login that was pending from the start. */
  lemma {:induction false} FirstStaleWrite(states: seq<State>, steps: seq<Step>, id: Identity, n: nat, m: nat)
    returns (k: nat)
    requires IsRun(states, steps) && n <= m < |states| && Inactive(states[n], id) && !Inactive(states[m], id)
    requires NeverReactivated(states, steps, id, n, m)
    ensures n <= k < m && StaleWrite(states[k], steps[k], id) && PendingLogin(states[n], steps[k].op, id)
    decreases m - n
  {
    if l: nat :| n <= l < m && StaleWrite(states[l], steps[l], id) {
      if NoStaleWrite(states, steps, id, n, l) {
        StaysInactive(states, steps, id, n, l);
        k := l;
      } else {
        k := EarliestStaleWrite(states, steps, id, n, l);
        StaysInactive(states, steps, id, n, k);
      }
    } else {
      StaysInactive(states, steps, id, n, m);
    }
  }

  lemma {:induction false} EarliestStaleWrite(states: seq<State>, steps: seq<Step>, id: Identity, n: nat, m: nat)
    returns (k: nat)
    requires IsRun(states, steps) && m <= |steps| && !NoStaleWrite(states, steps, id, n, m)
    ensures n <= k < m && StaleWrite(states[k], steps[k], id) && NoStaleWrite(states, steps, id, n, k)
    decreases m
  {
    k :| n <= k < m && StaleWrite(states[k], steps[k], id);
    if !NoStaleWrite(states, steps, id, n, k) {
      k := EarliestStaleWrite(states, steps, id, n, k);
    }
  }

  /* ---------------------------------------------------------------- what a finished pass means */

  /** The pass an operation works on, and the users it has not taken yet. */
  predicate OnPass(pc: Pc, pass: Pass) {
    match pc
    case PassNext(p, _) => p == pass
    case PassRevokes(p, _, _) => p == pass
    case PassSetsGroups(p, _, _) => p == pass
    case PassAudits(p, _) => p == pass
    case PassDone(p) => p == pass
    case _ => false
  }

  function Todo(pc: Pc): set<Identity> {
    match pc
    case PassNext(_, todo) => todo
    case PassRevokes(_, todo, _) => todo
    case PassSetsGroups(_, todo, _) => todo
    case PassAudits(_, todo) => todo
    case _ => {}
  }

  predicate WorksOn(s: State, op: Op, pass: Pass) {
    op in s.pcs && OnPass(s.pcs[op], pass)
  }

  /** The users a pass has to deactivate. */
  predicate MustGo(pass: Pass, id: Identity) {
    id in pass.listed && id.issuer == pass.issuer && Gone(pass.directory, id.subject)
  }

  /** Where a pass stands with a user who must go: still to do, seen inactive, or just deactivated. */
  lemma PassStep(s: State, step: Step, op: Op, pass: Pass, id: Identity)
    requires Enabled(s, step) && WorksOn(Next(s, step), op, pass) && MustGo(pass, id)
    requires id !in Todo(Next(s, step).pcs[op])
    ensures Inactive(Next(s, step), id)
            || (WorksOn(s, op, pass) && id !in Todo(s.pcs[op]))
            || (WorksOn(s, op, pass) && !pass.listed[id].active)
  {
    if step.op != op {
      OthersKeepPc(s, step, op);
    } else if step.Advance? && s.pcs[op].PassNext? && s.pcs[op].todo != {} {
      TakingDeactivates(s, op, pass, s.pcs[op].todo - {step.user}, step.user, id);
    } else if step.Advance? && !WorksOn(s, op, pass) {
      PassBegins(s, step, op, pass);
    }
  }

  lemma OthersKeepPc(s: State, step: Step, op: Op)
    requires Enabled(s, step) && step.op != op
    ensures op in Next(s, step).pcs <==> op in s.pcs
    ensures op in s.pcs ==> Next(s, step).pcs[op] == s.pcs[op]
  {
  }

  lemma TakingDeactivates(s: State, op: Op, pass: Pass, todo: set<Identity>, user: Identity, id: Identity)
    requires user in pass.listed && MustGo(pass, id)
    ensures user == id && pass.listed[id].active ==> Inactive(PassTakes(s, op, pass, todo, user), id)
    ensures Todo(PassTakes(s, op, pass, todo, user).pcs[op]) == todo
    ensures OnPass(PassTakes(s, op, pass, todo, user).pcs[op], pass)
  {
  }

  /** What a pass lists is what the table held at some moment since the pass began. */
  lemma {:induction false} ListedWasStored(states: seq<State>, steps: seq<Step>, op: Op, pass: Pass, n: nat)
    returns (w: nat)
    requires IsRun(states, steps) && n < |states| && WorksOn(states[n], op, pass)
    ensures w <= n && op in states[w].pcs && states[w].users == pass.listed
  {
    assert n > 0;
    assert StepAt(states, steps, n - 1);
    var s, step := states[n - 1], steps[n - 1];
    if WorksOn(s, op, pass) {
      w := ListedWasStored(states, steps, op, pass, n - 1);
    } else {
      PassBegins(s, step, op, pass);
      w := n;
    }
  }

  lemma PassBegins(s: State, step: Step, op: Op, pass: Pass)
    requires Enabled(s, step) && WorksOn(Next(s, step), op, pass) && !WorksOn(s, op, pass)
    ensures Next(s, step).users == pass.listed
    ensures Next(s, step).pcs[op] == PassNext(pass, set i | i in pass.listed.Keys && i.issuer == pass.issuer)
  {
  }

  /** A user whom a pass has dealt with was inactive at some moment of the pass. */
  lemma {:induction false} TakenWasInactive(
    states: seq<State>, steps: seq<Step>, op: Op, pass: Pass, id: Identity, n: nat) returns (w: nat)
    requires IsRun(states, steps) && n < |states| && WorksOn(states[n], op, pass)
    requires MustGo(pass, id) && id !in Todo(states[n].pcs[op])
    ensures w <= n && op in states[w].pcs && Inactive(states[w], id)
  {
    assert n > 0;
    assert StepAt(states, steps, n - 1);
    var s, step := states[n - 1], steps[n - 1];
    PassStep(s, step, op, pass, id);
    if Inactive(states[n], id) {
      w := n;
    } else if WorksOn(s, op, pass) && id !in Todo(s.pcs[op]) {
      w := TakenWasInactive(states, steps, op, pass, id, n - 1);
    } else {
      w := ListedWasStored(states, steps, op, pass, n - 1);
    }
  }

  /**
   Main result: a pass that ends with success has found or made every listed user who is gone inactive,
   at a moment w of the pass. If no login that read the user before w is pending at w, and no pass sees
   the user active, then up to every later moment m the user is inactive, contributes no principal on any
   host, and is refused by every login that reads the user after w.
   */
  lemma OffboardedUnlessPending(
    states: seq<State>, steps: seq<Step>, op: Op, id: Identity, n: nat, m: nat) returns (w: nat)
    requires IsRun(states, steps) && n <= m < |states|
    requires op in states[n].pcs && states[n].pcs[op].PassDone? && MustGo(states[n].pcs[op].pass, id)
    ensures w <= n && op in states[w].pcs && Inactive(states[w], id)
    ensures (forall o :: !PendingLogin(states[w], o, id)) && NeverReactivated(states, steps, id, w, m) ==>
              && Inactive(states[m], id)
              && (forall db: Tables, tags, localUser :: db.users == states[m].users ==>
                    !Contributes(db, id, tags, localUser))
              && (m < |steps| && ReadsUser(states[m], steps[m], id) ==>
                    && steps[m].op in states[m + 1].pcs && states[m + 1].pcs[steps[m].op].LoginRefused?
                    && states[m + 1].users == states[m].users)
  {
    w := TakenWasInactive(states, steps, op, states[n].pcs[op].pass, id, n);
    if (forall o :: !PendingLogin(states[w], o, id)) && NeverReactivated(states, steps, id, w, m) {
      if !NoStaleWrite(states, steps, id, w, m) {
        var k := EarliestStaleWrite(states, steps, id, w, m);
        StaysInactive(states, steps, id, w, k);
      }
      StaysInactive(states, steps, id, w, m);
      if m < |steps| {
        assert StepAt(states, steps, m);
      }
    }
  }

  /* ---------------------------------------------------------------- a concrete run */

  ghost predicate Reaches(states: seq<State>, steps: seq<Step>, last: State) {
    IsRun(states, steps) && states[|steps|] == last
  }

  lemma Extend(states: seq<State>, steps: seq<Step>, last: State, step: Step)
    returns (states': seq<State>, steps': seq<Step>)
    requires Reaches(states, steps, last) && Enabled(last, step)
    ensures Reaches(states', steps', Next(last, step))
    ensures states' == states + [Next(last, step)] && steps' == steps + [step]
  {
    states', steps' := states + [Next(last, step)], steps + [step];
    forall k | 0 <= k < |steps'|
      ensures StepAt(states', steps', k)
    {
      if k < |steps| {
        assert StepAt(states, steps, k);
      }
    }
  }

  const ALICE: Identity := Identity("iss", "alice")
  const RENAMED: Claims := Claims("iss", "alice", "alice2", "", ["ops"])
  const EMPTY_PASS: Pass := Pass("iss", [], map[ALICE := Profile("alice", "", true)])

  function Alice(username: string, active: bool): Users {
    map[ALICE := Profile(username, "", active)]
  }

  /** A login has read the user as active and is about to store the new name; a pass has listed the user. */
  lemma BothHaveRead() returns (states: seq<State>, steps: seq<Step>)
    ensures Reaches(states, steps,
                    State(Alice("alice", true), {},
                          map[0 := LoginUpdates(RENAMED), 1 := PassNext(EMPTY_PASS, {ALICE})]))
  {
    var s := State(Alice("alice", true), {}, map[]);
    states, steps := [s], [];
    states, steps := Extend(states, steps, s, StartLogin(0, RENAMED));
    s := s.(pcs := map[0 := LoginReads(RENAMED)]);
    states, steps := Extend(states, steps, s, Advance(0, ALICE));
    s := s.(pcs := map[0 := LoginUpdates(RENAMED)]);
    states, steps := Extend(states, steps, s, StartPass(1, "iss", []));
    s := s.(pcs := map[0 := LoginUpdates(RENAMED), 1 := PassLists("iss", [])]);
    states, steps := Extend(states, steps, s, Advance(1, ALICE));
    assert (set i | i in s.users.Keys && i.issuer == "iss") == {ALICE};
  }

  /** The pass deactivates the user and revokes the groups. */
  lemma PassHasRevoked() returns (states: seq<State>, steps: seq<Step>)
    ensures Reaches(states, steps,
                    State(Alice("alice", false), {}, map[0 := LoginUpdates(RENAMED), 1 := PassAudits(EMPTY_PASS, {})]))
  {
    states, steps := BothHaveRead();
    var login := LoginUpdates(RENAMED);
    var s := State(Alice("alice", true), {}, map[0 := login, 1 := PassNext(EMPTY_PASS, {ALICE})]);
    assert {ALICE} - {ALICE} == {} && BySubject([]) == map[] && Gone([], "alice");
    states, steps := Extend(states, steps, s, Advance(1, ALICE));
    s := s.(users := Alice("alice", false), pcs := map[0 := login, 1 := PassRevokes(EMPTY_PASS, {}, ALICE)]);
    states, steps := Extend(states, steps, s, Advance(1, ALICE));
    assert WithGroups({}, ALICE, {}) == {};
  }

  /** It ends with success. */
  lemma PassHasEnded() returns (states: seq<State>, steps: seq<Step>)
    ensures Reaches(states, steps,
                    State(Alice("alice", false), {}, map[0 := LoginUpdates(RENAMED), 1 := PassDone(EMPTY_PASS)]))
  {
    states, steps := PassHasRevoked();
    var login := LoginUpdates(RENAMED);
    var s := State(Alice("alice", false), {}, map[0 := login, 1 := PassAudits(EMPTY_PASS, {})]);
    states, steps := Extend(states, steps, s, Advance(1, ALICE));
    s := s.(pcs := map[0 := login, 1 := PassNext(EMPTY_PASS, {})]);
    states, steps := Extend(states, steps, s, Advance(1, ALICE));
  }

  /** The pending login stores the profile it read, and restores the groups of the token. */
  lemma LoginWritesBack(s: State)
    requires s == State(Alice("alice", false), {}, map[0 := LoginUpdates(RENAMED), 1 := PassDone(EMPTY_PASS)])
    ensures Enabled(s, Advance(0, ALICE))
    ensures
      var s' := Next(s, Advance(0, ALICE));
      && Enabled(s', Advance(0, ALICE))
      && var s'' := Next(s', Advance(0, ALICE));
      && ALICE in s''.users && s''.users[ALICE].active
      && Membership(ALICE, Group("iss", "ops")) in s''.memberships
  {
    assert Group("iss", "ops") in GroupsNamed("iss", ["ops"]);
  }

  /**
   The overlap happens: after a successful pass that found the user missing, the pending login stores
   the profile it read, and the user is active again with the groups of the token.
   */
  lemma PendingLoginRevives() returns (states: seq<State>, steps: seq<Step>, n: nat)
    ensures IsRun(states, steps) && n < |states|
    ensures 1 in states[n].pcs && states[n].pcs[1] == PassDone(EMPTY_PASS)
    ensures MustGo(EMPTY_PASS, ALICE) && Inactive(states[n], ALICE)
    ensures
      var last := states[|states| - 1];
      && ALICE in last.users && last.users[ALICE].active
      && Membership(ALICE, Group("iss", "ops")) in last.memberships
  {
    states, steps := PassHasEnded();
    n := |steps|;
    var s := states[n];
    assert BySubject([]) == map[] && Gone([], "alice");
    LoginWritesBack(s);
    states, steps := Extend(states, steps, s, Advance(0, ALICE));
    states, steps := Extend(states, steps, Next(s, Advance(0, ALICE)), Advance(0, ALICE));
  }
}
