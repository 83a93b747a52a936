/**
 The signer cache under concurrency (internal/ca/ca.go, managed mode). Every store call is one atomic
 step; the signer cache is touched only under its mutex, which `activeSigner` keeps while it reads the
 store. `Issue`, `Rotate` and `RetireKey` interleave freely, and other replicas may change the store.
 */
module CAConcurrency {
  import opened Common

  datatype Purpose = User | Host

  datatype KeyState = Active | Retiring | Retired

  datatype Row = Row(purpose: Purpose, state: KeyState)

  type Key = nat
  type Op = nat
  type Store = map<Key, Row>

  /**
   Program counters. `known` are the keys that were already taken out of service when the `Issue`
   started; it is what the safety property speaks about and plays no role in the steps.
   */
  datatype Pc =
    | IssueLooksUp(purpose: Purpose, known: set<Key>)
    | IssueReads(purpose: Purpose, known: set<Key>)
    | IssueFills(purpose: Purpose, key: Option<Key>, known: set<Key>)
    | IssueSigns(purpose: Purpose, signer: Key, known: set<Key>)
    | Issued(purpose: Purpose, signer: Key, known: set<Key>)
    | RotateLists(purpose: Purpose)
    | RotateCreates(purpose: Purpose, previous: seq<Key>)
    | RotateAudits(purpose: Purpose, previous: seq<Key>)
    | CreateInvalidates(purpose: Purpose, previous: seq<Key>)
    | RotateDemotes(purpose: Purpose, previous: seq<Key>, demoted: set<Key>)
    | RetireWrites(target: Key)
    | RetireAudits(target: Key, purpose: Purpose)
    | RetireInvalidates(target: Key, purpose: Purpose)
    | Returned
    | Failed

  /** `outOfService`: keys passed to a RetireKey, or demoted by a Rotate, that returned success. */
  datatype State = State(
    store: Store, nextKey: Key, cache: map<Purpose, Key>, lock: Option<Op>, pcs: map<Op, Pc>,
    outOfService: set<Key>)

  datatype Step =
    | StartIssue(op: Op, purpose: Purpose)
    | StartRotate(op: Op, purpose: Purpose)
    | StartRetire(op: Op, target: Key)
    | Advance(op: Op)
    | Fail(op: Op)
    | OtherReplica(store: Store, nextKey: Key)

  /** The active keys of a purpose, newest first; keys are numbered in order of creation. */
  function ActiveBelow(store: Store, purpose: Purpose, n: Key): (r: seq<Key>)
    ensures forall k :: k in r ==> k < n && k in store && store[k] == Row(purpose, Active)
  {
    if n == 0 then []
    else (if n - 1 in store && store[n - 1] == Row(purpose, Active) then [n - 1] else [])
         + ActiveBelow(store, purpose, n - 1)
  }

  /** What other replicas may do: add keys, and move keys out of the active state but never back. */
  ghost predicate ForeignChange(s: State, store': Store, nextKey': Key) {
    && s.nextKey <= nextKey' && (forall k :: k in store' ==> k < nextKey')
    && forall k :: k in s.store ==>
         && k in store' && store'[k].purpose == s.store[k].purpose
         && (store'[k].state.Active? ==> s.store[k].state.Active?)
  }

  predicate NeedsLock(pc: Pc) {
    pc.IssueLooksUp? || pc.CreateInvalidates? || pc.RetireInvalidates? || (pc.RotateDemotes? && pc.previous == [])
  }

  ghost predicate Enabled(s: State, step: Step) {
    match step
    case StartIssue(op, _) => op !in s.pcs
    case StartRotate(op, _) => op !in s.pcs
    case StartRetire(op, _) => op !in s.pcs
    case Advance(op) =>
      && op in s.pcs && !s.pcs[op].Issued? && !s.pcs[op].Returned? && !s.pcs[op].Failed?
      && (NeedsLock(s.pcs[op]) ==> s.lock.None?)
    case Fail(op) =>
      && op in s.pcs && !s.pcs[op].Issued? && !s.pcs[op].Returned? && !s.pcs[op].Failed?
      && !NeedsLock(s.pcs[op])
    case OtherReplica(store', nextKey') => ForeignChange(s, store', nextKey')
  }

  function Forget(cache: map<Purpose, Key>, p: Purpose): map<Purpose, Key> {
    cache - {p}
  }

  function WithState(store: Store, k: Key, state: KeyState): Store {
    if k in store then store[k := store[k].(state := state)] else store
  }

  /** The next atomic action of an operation. */
  function Advanced(s: State, op: Op): State
    requires op in s.pcs
  {
    match s.pcs[op]
    case IssueLooksUp(p, known) =>
      if p in s.cache then s.(pcs := s.pcs[op := IssueSigns(p, s.cache[p], known)])
      else s.(lock := Some(op), pcs := s.pcs[op := IssueReads(p, known)])
    case IssueReads(p, known) =>
      var active := ActiveBelow(s.store, p, s.nextKey);
      s.(pcs := s.pcs[op := IssueFills(p, if active == [] then None else Some(active[0]), known)])
    case IssueFills(p, key, known) =>
      if key.None? then s.(lock := None, pcs := s.pcs[op := Failed])
      else s.(cache := s.cache[p := key.value], lock := None, pcs := s.pcs[op := IssueSigns(p, key.value, known)])
    case IssueSigns(p, signer, known) => s.(pcs := s.pcs[op := Issued(p, signer, known)])
    case RotateLists(p) =>
      s.(pcs := s.pcs[op := RotateCreates(p, ActiveBelow(s.store, p, s.nextKey))])
    case RotateCreates(p, previous) =>
      s.(store := s.store[s.nextKey := Row(p, Active)], nextKey := s.nextKey + 1,
         pcs := s.pcs[op := RotateAudits(p, previous)])
    case RotateAudits(p, previous) => s.(pcs := s.pcs[op := CreateInvalidates(p, previous)])
    case CreateInvalidates(p, previous) =>
      s.(cache := Forget(s.cache, p), pcs := s.pcs[op := RotateDemotes(p, previous, {})])
    case RotateDemotes(p, previous, demoted) =>
      if previous == [] then
        s.(cache := Forget(s.cache, p), outOfService := s.outOfService + demoted, pcs := s.pcs[op := Returned])
      else
        s.(store := WithState(s.store, previous[0], Retiring),
           pcs := s.pcs[op := RotateDemotes(p, previous[1..], demoted + {previous[0]})])
    case RetireWrites(k) =>
      if k !in s.store then s.(pcs := s.pcs[op := Failed])
      else s.(store := WithState(s.store, k, Retired), pcs := s.pcs[op := RetireAudits(k, s.store[k].purpose)])
    case RetireAudits(k, p) => s.(pcs := s.pcs[op := RetireInvalidates(k, p)])
    case RetireInvalidates(k, p) =>
      s.(cache := Forget(s.cache, p), outOfService := s.outOfService + {k}, pcs := s.pcs[op := Returned])
    case Issued(_, _, _) => s
    case Returned => s
    case Failed => s
  }

  function Next(s: State, step: Step): State
    requires step.Advance? || step.Fail? ==> step.op in s.pcs
  {
    match step
    case StartIssue(op, p) => s.(pcs := s.pcs[op := IssueLooksUp(p, s.outOfService)])
    case StartRotate(op, p) => s.(pcs := s.pcs[op := RotateLists(p)])
    case StartRetire(op, k) => s.(pcs := s.pcs[op := RetireWrites(k)])
    case Advance(op) => Advanced(s, op)
    case Fail(op) => s.(lock := if s.lock == Some(op) then None else s.lock, pcs := s.pcs[op := Failed])
    case OtherReplica(store', nextKey') => s.(store := store', nextKey := nextKey')
  }

  /* ---------------------------------------------------------------- safety */

  predicate HasPurpose(store: Store, k: Key, p: Purpose) {
    k in store && store[k].purpose == p
  }

  predicate Demoted(store: Store, k: Key, p: Purpose) {
    HasPurpose(store, k, p) && !store[k].state.Active?
  }

  predicate HoldsLock(pc: Pc) {
    pc.IssueReads? || pc.IssueFills?
  }

  /** What is true of an operation at its program counter. */
  ghost predicate PcInv(s: State, op: Op, pc: Pc) {
    && (HoldsLock(pc) <==> s.lock == Some(op))
    && match pc
       case IssueLooksUp(p, known) => known <= s.outOfService
       case IssueReads(p, known) => known <= s.outOfService
       case IssueFills(p, key, known) =>
         known <= s.outOfService
         && (key.Some? ==> HasPurpose(s.store, key.value, p) && key.value !in s.outOfService)
       case IssueSigns(p, signer, known) => HasPurpose(s.store, signer, p) && signer !in known
       case Issued(p, signer, known) => HasPurpose(s.store, signer, p) && signer !in known
       case RotateCreates(p, previous) => forall k :: k in previous ==> HasPurpose(s.store, k, p)
       case RotateAudits(p, previous) => forall k :: k in previous ==> HasPurpose(s.store, k, p)
       case CreateInvalidates(p, previous) => forall k :: k in previous ==> HasPurpose(s.store, k, p)
       case RotateDemotes(p, previous, demoted) =>
         && (forall k :: k in previous ==> HasPurpose(s.store, k, p))
         && (forall k :: k in demoted ==> Demoted(s.store, k, p))
       case RetireAudits(k, p) => Demoted(s.store, k, p)
       case RetireInvalidates(k, p) => Demoted(s.store, k, p)
       case _ => true
  }

  ghost predicate Inv(s: State) {
    && (forall k :: k in s.store ==> k < s.nextKey)
    && (forall p :: p in s.cache ==> HasPurpose(s.store, s.cache[p], p) && s.cache[p] !in s.outOfService)
    && (forall k :: k in s.outOfService ==> k in s.store && !s.store[k].state.Active?)
    && (s.lock.Some? ==> s.lock.value in s.pcs)
    && (forall op :: op in s.pcs ==> PcInv(s, op, s.pcs[op]))
  }

  /** The store only grows, keeps purposes and never reactivates a key. */
  ghost predicate StoreForward(store: Store, store': Store) {
    forall k :: k in store ==>
      && k in store' && store'[k].purpose == store[k].purpose
      && (store'[k].state.Active? ==> store[k].state.Active?)
  }

  /** Operations that do not move are not disturbed, as long as keys go out of service without a lock held. */
  lemma OthersKeepPcInv(s: State, s': State, op: Op, pc: Pc)
    requires PcInv(s, op, pc) && StoreForward(s.store, s'.store)
    requires s.outOfService <= s'.outOfService
    requires HoldsLock(pc) <==> s'.lock == Some(op)
    requires s.outOfService == s'.outOfService || s.lock.None?
    ensures PcInv(s', op, pc)
  {
  }

  lemma AdvanceKeepsStore(s: State, op: Op)
    requires Inv(s) && Enabled(s, Advance(op))
    ensures StoreForward(s.store, Advanced(s, op).store)
    ensures forall k :: k in Advanced(s, op).store ==> k < Advanced(s, op).nextKey
  {
  }

  lemma AdvanceKeepsPcInv(s: State, op: Op)
    requires Inv(s) && Enabled(s, Advance(op))
    ensures
      var s' := Advanced(s, op);
      PcInv(s', op, s'.pcs[op])
  {
    assert PcInv(s, op, s.pcs[op]);
    AdvanceKeepsStore(s, op);
    if s.pcs[op].RotateDemotes? {
      DemotionKeepsPcInv(s, op);
    }
  }

  lemma DemotionKeepsPcInv(s: State, op: Op)
    requires op in s.pcs && s.pcs[op].RotateDemotes? && PcInv(s, op, s.pcs[op])
    ensures
      var s' := Advanced(s, op);
      PcInv(s', op, s'.pcs[op])
  {
    var pc := s.pcs[op];
    if pc.previous != [] {
      assert pc.previous[0] in pc.previous;
      assert forall k :: k in pc.previous[1..] ==> k in pc.previous;
    }
  }

  lemma AdvanceKeepsCache(s: State, op: Op)
    requires Inv(s) && Enabled(s, Advance(op))
    ensures
      var s' := Advanced(s, op);
      && (forall p :: p in s'.cache ==> HasPurpose(s'.store, s'.cache[p], p) && s'.cache[p] !in s'.outOfService)
      && (forall k :: k in s'.outOfService ==> k in s'.store && !s'.store[k].state.Active?)
      && s.outOfService <= s'.outOfService
      && (s.outOfService == s'.outOfService || s.lock.None?)
  {
    assert PcInv(s, op, s.pcs[op]);
    AdvanceKeepsStore(s, op);
  }

  lemma AdvanceKeepsInv(s: State, op: Op)
    requires Inv(s) && Enabled(s, Advance(op))
    ensures Inv(Advanced(s, op))
  {
    var s' := Advanced(s, op);
    AdvanceKeepsStore(s, op);
    AdvanceKeepsPcInv(s, op);
    AdvanceKeepsCache(s, op);
    assert PcInv(s, op, s.pcs[op]);
    assert s'.lock == s.lock || s.lock == Some(op) || (s.lock.None? && s'.lock == Some(op));
    forall other | other in s'.pcs
      ensures PcInv(s', other, s'.pcs[other])
    {
      if other != op {
        assert PcInv(s, other, s.pcs[other]);
        OthersKeepPcInv(s, s', other, s.pcs[other]);
      }
    }
  }

  lemma StepKeepsInv(s: State, step: Step)
    requires Inv(s) && Enabled(s, step)
    ensures Inv(Next(s, step)) && s.outOfService <= Next(s, step).outOfService
  {
    var s' := Next(s, step);
    if step.Advance? {
      AdvanceKeepsInv(s, step.op);
      AdvanceKeepsCache(s, step.op);
    } else {
      if step.Fail? {
        assert PcInv(s, step.op, s.pcs[step.op]);
      }
      forall other | other in s'.pcs
        ensures PcInv(s', other, s'.pcs[other])
      {
        if step.OtherReplica? || other != step.op {
          OthersKeepPcInv(s, s', other, s.pcs[other]);
        }
      }
    }
  }

  /** A process that has just started on some store. */
  ghost predicate Init(s: State) {
    && s.cache == map[] && s.lock.None? && s.pcs == map[] && s.outOfService == {}
    && forall k :: k in s.store ==> k < s.nextKey
  }

  ghost predicate IsRun(states: seq<State>, steps: seq<Step>) {
    && |states| == |steps| + 1 && Init(states[0])
    && forall i :: 0 <= i < |steps| ==> Enabled(states[i], steps[i]) && states[i + 1] == Next(states[i], steps[i])
  }

  lemma {:induction false} RunKeepsInv(states: seq<State>, steps: seq<Step>, n: nat)
    requires IsRun(states, steps) && n < |states|
    ensures Inv(states[n])
    ensures n > 0 ==> states[n - 1].outOfService <= states[n].outOfService
  {
    if n > 0 {
      RunKeepsInv(states, steps, n - 1);
      StepKeepsInv(states[n - 1], steps[n - 1]);
    }
  }

  lemma {:induction false} OutOfServiceGrows(states: seq<State>, steps: seq<Step>, n: nat, m: nat)
    requires IsRun(states, steps) && n <= m < |states|
    ensures states[n].outOfService <= states[m].outOfService
    decreases m - n
  {
    if n < m {
      OutOfServiceGrows(states, steps, n, m - 1);
      RunKeepsInv(states, steps, m);
    }
  }

  function KnownTo(pc: Pc): set<Key> {
    match pc
    case IssueLooksUp(_, known) => known
    case IssueReads(_, known) => known
    case IssueFills(_, _, known) => known
    case IssueSigns(_, _, known) => known
    case Issued(_, _, known) => known
    case _ => {}
  }

  predicate IsIssue(pc: Pc) {
    pc.IssueLooksUp? || pc.IssueReads? || pc.IssueFills? || pc.IssueSigns? || pc.Issued?
  }

  /** A step leaves what an Issue knew at its start alone, or ends it with a failure. */
  lemma IssueStepRemembers(s: State, step: Step, op: Op)
    requires Enabled(s, step) && op in s.pcs && (IsIssue(s.pcs[op]) || s.pcs[op].Failed?)
    ensures
      var pcs := Next(s, step).pcs;
      && op in pcs && (IsIssue(pcs[op]) || pcs[op].Failed?)
      && (IsIssue(pcs[op]) ==> IsIssue(s.pcs[op]) && KnownTo(pcs[op]) == KnownTo(s.pcs[op]))
  {
    if !(step.Advance? && step.op == op) && !(step.Fail? && step.op == op) {
      assert Next(s, step).pcs[op] == s.pcs[op];
    }
  }

  lemma {:induction false} IssueRemembers(states: seq<State>, steps: seq<Step>, op: Op, j: nat, m: nat)
    requires IsRun(states, steps) && j < m < |states| && steps[j].StartIssue? && steps[j].op == op
    ensures op in states[m].pcs
    ensures IsIssue(states[m].pcs[op]) ==> KnownTo(states[m].pcs[op]) == states[j].outOfService
    ensures IsIssue(states[m].pcs[op]) || states[m].pcs[op].Failed?
    decreases m - j
  {
    if m > j + 1 {
      IssueRemembers(states, steps, op, j, m - 1);
      IssueStepRemembers(states[m - 1], steps[m - 1], op);
    }
  }

  /** Once k is out of service no Issue of this process that starts later signs with it, in any interleaving. */
  lemma OutOfServiceNeverSigns(states: seq<State>, steps: seq<Step>, k: Key, i: nat, j: nat, m: nat, op: Op)
    requires IsRun(states, steps) && i <= j < m < |states|
    requires k in states[i].outOfService
    requires steps[j].StartIssue? && steps[j].op == op
    requires op in states[m].pcs && states[m].pcs[op].Issued?
    ensures states[m].pcs[op].signer != k
  {
    OutOfServiceGrows(states, steps, i, j);
    IssueRemembers(states, steps, op, j, m);
    RunKeepsInv(states, steps, m);
    assert PcInv(states[m], op, states[m].pcs[op]);
  }

  /* ---------------------------------------------------------------- which operations take keys out of service */

  /** Where a RetireKey of `k` stands; once it has returned success the key is out of service. */
  predicate RetireStands(s: State, op: Op, k: Key) {
    op in s.pcs
    && match s.pcs[op]
       case RetireWrites(target) => target == k
       case RetireAudits(target, _) => target == k
       case RetireInvalidates(target, _) => target == k
       case Returned => k in s.outOfService
       case Failed => true
       case _ => false
  }

  lemma RetiringAdvances(s: State, step: Step, op: Op, k: Key)
    requires Enabled(s, step) && RetireStands(s, op, k) && s.outOfService <= Next(s, step).outOfService
    ensures RetireStands(Next(s, step), op, k)
  {
    if step.OtherReplica? || step.op != op {
      OthersKeepPc(s, step, op);
    }
  }

  lemma RetiringStarts(s: State, op: Op, k: Key)
    ensures RetireStands(Next(s, StartRetire(op, k)), op, k)
  {
  }

  lemma StepTaken(states: seq<State>, steps: seq<Step>, i: nat)
    requires IsRun(states, steps) && i < |steps|
    ensures Enabled(states[i], steps[i]) && states[i + 1] == Next(states[i], steps[i])
  {
  }

  lemma {:induction false} RetiringOverRun(states: seq<State>, steps: seq<Step>, op: Op, k: Key, i: nat, n: nat)
    requires IsRun(states, steps) && i < n < |states| && steps[i] == StartRetire(op, k)
    ensures RetireStands(states[n], op, k)
    decreases n - i
  {
    if n > i + 1 {
      var m: nat := n - 1;
      RetiringOverRun(states, steps, op, k, i, m);
      RunKeepsInv(states, steps, n);
      StepTaken(states, steps, m);
      RetiringAdvances(states[m], steps[m], op, k);
    } else {
      StepTaken(states, steps, i);
      RetiringStarts(states[i], op, k);
    }
  }

  /**
   Main result: once RetireKey(k) has returned success, no Issue of this process that starts later signs
   with k, in any interleaving.
   */
  lemma NoSignatureAfterRetirement(
    states: seq<State>, steps: seq<Step>, retire: Op, k: Key, issue: Op, i: nat, n: nat, j: nat, m: nat)
    requires IsRun(states, steps) && i < n <= j < m < |states|
    requires steps[i] == StartRetire(retire, k) && retire in states[n].pcs && states[n].pcs[retire].Returned?
    requires steps[j].StartIssue? && steps[j].op == issue
    ensures issue in states[m].pcs && (states[m].pcs[issue].Issued? ==> states[m].pcs[issue].signer != k)
  {
    RetiringOverRun(states, steps, retire, k, i, n);
    IssueRemembers(states, steps, issue, j, m);
    if states[m].pcs[issue].Issued? {
      OutOfServiceNeverSigns(states, steps, k, n, j, m, issue);
    }
  }

  /** Every key of the list is still to be demoted or has been. */
  predicate Handles(listed: seq<Key>, previous: seq<Key>, demoted: set<Key>) {
    forall k :: k in listed ==> k in previous || k in demoted
  }

  /**
   Where a Rotate stands that listed these keys when the next key was `first`. It goes on to create a key
   of the purpose, which stays, and once it has returned success the listed keys are out of service.
   */
  predicate RotateStands(s: State, op: Op, p: Purpose, listed: seq<Key>, first: Key) {
    op in s.pcs
    && match s.pcs[op]
       case RotateCreates(q, previous) => q == p && previous == listed && first <= s.nextKey
       case RotateAudits(q, previous) => q == p && previous == listed && HasCreated(s, p, first)
       case CreateInvalidates(q, previous) => q == p && previous == listed && HasCreated(s, p, first)
       case RotateDemotes(q, previous, demoted) =>
         q == p && Handles(listed, previous, demoted) && HasCreated(s, p, first)
       case Returned => (forall k :: k in listed ==> k in s.outOfService) && HasCreated(s, p, first)
       case Failed => true
       case _ => false
  }

  /** A key of the purpose that is newer than the list. */
  predicate HasCreated(s: State, p: Purpose, first: Key) {
    exists k :: k in s.store && first <= k && s.store[k].purpose == p
  }

  lemma DemotionHandles(listed: seq<Key>, previous: seq<Key>, demoted: set<Key>)
    requires Handles(listed, previous, demoted) && previous != []
    ensures Handles(listed, previous[1..], demoted + {previous[0]})
  {
    assert forall k :: k in previous ==> k == previous[0] || k in previous[1..];
  }

  lemma CreatedStays(s: State, s': State, p: Purpose, first: Key)
    requires HasCreated(s, p, first) && StoreForward(s.store, s'.store)
    ensures HasCreated(s', p, first)
  {
    var k :| k in s.store && first <= k && s.store[k].purpose == p;
    assert k in s'.store && s'.store[k].purpose == p;
  }

  lemma RotatingAdvances(s: State, step: Step, op: Op, p: Purpose, listed: seq<Key>, first: Key)
    requires Enabled(s, step) && RotateStands(s, op, p, listed, first)
    requires s.outOfService <= Next(s, step).outOfService && StoreForward(s.store, Next(s, step).store)
    ensures RotateStands(Next(s, step), op, p, listed, first)
  {
    var s' := Next(s, step);
    if HasCreated(s, p, first) {
      CreatedStays(s, s', p, first);
    }
    if step.OtherReplica? || step.op != op {
      OthersKeepPc(s, step, op);
    } else if step.Advance? {
      if s.pcs[op].RotateCreates? {
        assert s.nextKey in s'.store && s'.store[s.nextKey] == Row(p, Active);
      } else if s.pcs[op].RotateDemotes? && s.pcs[op].previous != [] {
        DemotionHandles(listed, s.pcs[op].previous, s.pcs[op].demoted);
      }
    }
  }

  lemma StepMovesStoreForward(s: State, step: Step)
    requires Inv(s) && Enabled(s, step)
    ensures StoreForward(s.store, Next(s, step).store)
  {
    if step.Advance? {
      AdvanceKeepsStore(s, step.op);
    }
  }

  lemma {:induction false} RotatingOverRun(
    states: seq<State>, steps: seq<Step>, op: Op, p: Purpose, l: nat, n: nat)
    requires IsRun(states, steps) && l < n < |states| && steps[l] == Advance(op)
    requires op in states[l].pcs && states[l].pcs[op] == RotateLists(p)
    ensures RotateStands(states[n], op, p, ActiveBelow(states[l].store, p, states[l].nextKey), states[l].nextKey)
    decreases n - l
  {
    if n > l + 1 {
      RotatingOverRun(states, steps, op, p, l, n - 1);
      RunKeepsInv(states, steps, n - 1);
      RunKeepsInv(states, steps, n);
      var s, step := states[n - 1], steps[n - 1];
      assert Enabled(s, step) && states[n - 1 + 1] == Next(s, step);
      StepMovesStoreForward(s, step);
      RotatingAdvances(s, step, op, p, ActiveBelow(states[l].store, p, states[l].nextKey), states[l].nextKey);
    } else {
      assert Enabled(states[l], steps[l]) && states[l + 1] == Next(states[l], steps[l]);
    }
  }

  /**
   The same for a Rotate: once it has returned success, no Issue that starts later signs with a key that
   was active when it listed the keys, and there is a newer key of the purpose.
   */
  lemma NoSignatureAfterRotation(
    states: seq<State>, steps: seq<Step>, rotate: Op, p: Purpose, k: Key, issue: Op, l: nat, n: nat, j: nat, m: nat)
    requires IsRun(states, steps) && l < n <= j < m < |states|
    requires steps[l] == Advance(rotate) && rotate in states[l].pcs && states[l].pcs[rotate] == RotateLists(p)
    requires k in states[l].store && states[l].store[k] == Row(p, Active)
    requires rotate in states[n].pcs && states[n].pcs[rotate].Returned?
    requires steps[j].StartIssue? && steps[j].op == issue
    ensures issue in states[m].pcs && (states[m].pcs[issue].Issued? ==> states[m].pcs[issue].signer != k)
    ensures HasCreated(states[n], p, states[l].nextKey)
  {
    RunKeepsInv(states, steps, l);
    ActiveIsListed(states[l].store, p, states[l].nextKey, k);
    RotatingOverRun(states, steps, rotate, p, l, n);
    IssueRemembers(states, steps, issue, j, m);
    if states[m].pcs[issue].Issued? {
      OutOfServiceNeverSigns(states, steps, k, n, j, m, issue);
    }
  }

  lemma {:induction false} ActiveIsListed(store: Store, p: Purpose, n: Key, k: Key)
    requires k < n && k in store && store[k] == Row(p, Active)
    ensures k in ActiveBelow(store, p, n)
  {
    if k < n - 1 {
      ActiveIsListed(store, p, n - 1, k);
    }
  }

  /* ---------------------------------------------------------------- what an Issue signs with */

  /** The newest active key of a purpose. */
  predicate IsNewestActive(store: Store, p: Purpose, k: Key) {
    && k in store && store[k] == Row(p, Active)
    && forall l :: l in store && store[l] == Row(p, Active) ==> l <= k
  }

  lemma {:induction false} FirstListedIsNewest(store: Store, p: Purpose, n: Key)
    requires ActiveBelow(store, p, n) != []
    ensures forall l :: l in store && l < n && store[l] == Row(p, Active) ==> l <= ActiveBelow(store, p, n)[0]
  {
    if n > 0 && !(n - 1 in store && store[n - 1] == Row(p, Active)) {
      FirstListedIsNewest(store, p, n - 1);
    }
  }

  /** The key an operation holds or the cache offers it for signing. */
  predicate Offers(s: State, p: Purpose, k: Key) {
    || Caches(s, k, p)
    || exists op :: op in s.pcs && PcOffers(s.pcs[op], p, k)
  }

  predicate PcOffers(pc: Pc, p: Purpose, k: Key) {
    match pc
    case IssueFills(q, key, _) => q == p && key == Some(k)
    case IssueSigns(q, signer, _) => q == p && signer == k
    case Issued(q, signer, _) => q == p && signer == k
    case _ => false
  }

  /** A key that a step newly offers was offered before, or is the newest active key now. */
  lemma OfferedStep(s: State, step: Step, p: Purpose, k: Key)
    requires (forall l :: l in s.store ==> l < s.nextKey) && Enabled(s, step) && Offers(Next(s, step), p, k)
    ensures Offers(s, p, k) || IsNewestActive(s.store, p, k)
  {
    var s' := Next(s, step);
    if Caches(s', k, p) {
      NewlyCached(s, step, p, k);
    } else {
      var op :| op in s'.pcs && PcOffers(s'.pcs[op], p, k);
      if step.OtherReplica? || step.op != op {
        OthersKeepPc(s, step, op);
      } else if step.Advance? {
        NewlyOffered(s, op, p, k);
      }
    }
  }

  lemma NewlyCached(s: State, step: Step, p: Purpose, k: Key)
    requires Enabled(s, step) && Caches(Next(s, step), k, p)
    ensures Caches(s, k, p) || (step.Advance? && PcOffers(s.pcs[step.op], p, k))
  {
  }

  lemma NewlyOffered(s: State, op: Op, p: Purpose, k: Key)
    requires (forall l :: l in s.store ==> l < s.nextKey)
    requires Enabled(s, Advance(op)) && PcOffers(Advanced(s, op).pcs[op], p, k)
    ensures PcOffers(s.pcs[op], p, k) || Caches(s, k, p) || IsNewestActive(s.store, p, k)
  {
    if s.pcs[op].IssueReads? {
      NewestIsListedFirst(s.store, p, s.nextKey);
    }
  }

  lemma NewestIsListedFirst(store: Store, p: Purpose, n: Key)
    requires forall l :: l in store ==> l < n
    ensures ActiveBelow(store, p, n) != [] ==> IsNewestActive(store, p, ActiveBelow(store, p, n)[0])
  {
    var active := ActiveBelow(store, p, n);
    if active != [] {
      assert active[0] in active;
      FirstListedIsNewest(store, p, n);
    }
  }

  /** Whatever an Issue signs with was the newest active key of the purpose at some moment. */
  lemma {:induction false} SignerWasNewest(states: seq<State>, steps: seq<Step>, p: Purpose, k: Key, n: nat)
    returns (w: nat)
    requires IsRun(states, steps) && n < |states| && Offers(states[n], p, k)
    ensures w <= n && IsNewestActive(states[w].store, p, k)
  {
    assert n > 0;
    RunKeepsInv(states, steps, n - 1);
    var s, step := states[n - 1], steps[n - 1];
    assert Enabled(s, step) && states[n - 1 + 1] == Next(s, step);
    OfferedStep(s, step, p, k);
    if Offers(s, p, k) {
      w := SignerWasNewest(states, steps, p, k, n - 1);
    } else {
      w := n - 1;
    }
  }

  /* ---------------------------------------------------------------- without overlap */

  ghost predicate StepIn(trace: seq<State>, op: Op, i: nat)
    requires i + 1 < |trace|
  {
    Enabled(trace[i], Advance(op)) && trace[i + 1] == Advanced(trace[i], op)
  }

  /** The next steps of an operation, with no other in between, lead from `s` to `s'`. */
  ghost predicate RunsAlone(trace: seq<State>, op: Op, s: State, s': State) {
    && trace != [] && trace[0] == s && trace[|trace| - 1] == s'
    && forall i :: 0 <= i < |trace| - 1 ==> StepIn(trace, op, i)
  }

  lemma StepsBefore(s: State, op: Op, trace: seq<State>, s': State)
    requires Enabled(s, Advance(op)) && RunsAlone(trace, op, Advanced(s, op), s')
    ensures RunsAlone([s] + trace, op, s, s')
  {
    var longer := [s] + trace;
    forall i | 0 <= i < |longer| - 1
      ensures StepIn(longer, op, i)
    {
      assert i > 0 ==> StepIn(trace, op, i - 1);
    }
  }

  lemma RunsCompose(first: seq<State>, second: seq<State>, op: Op, s: State, mid: State, s': State)
    requires RunsAlone(first, op, s, mid) && RunsAlone(second, op, mid, s')
    ensures RunsAlone(first + second[1..], op, s, s')
  {
    var trace := first + second[1..];
    forall i | 0 <= i < |trace| - 1
      ensures StepIn(trace, op, i)
    {
      if i < |first| - 1 {
        assert StepIn(first, op, i);
      } else {
        assert StepIn(second, op, i - |first| + 1);
      }
    }
  }

  /** An Issue signs with the cached key, or else with the newest active one; it fails if there is neither. */
  lemma LoneIssue(s: State, op: Op, p: Purpose, known: set<Key>)
    returns (trace: seq<State>, s': State)
    requires op in s.pcs && s.pcs[op] == IssueLooksUp(p, known)
    requires s.lock.None? && forall l :: l in s.store ==> l < s.nextKey
    ensures RunsAlone(trace, op, s, s') && s'.store == s.store && s'.lock.None? && op in s'.pcs
    ensures
      if p in s.cache then s'.cache == s.cache && s'.pcs[op] == Issued(p, s.cache[p], known)
      else if forall k :: k in s.store ==> s.store[k] != Row(p, Active) then
        s'.cache == s.cache && s'.pcs[op].Failed?
      else
        && p in s'.cache && IsNewestActive(s.store, p, s'.cache[p]) && s'.cache == s.cache[p := s'.cache[p]]
        && s'.pcs[op] == Issued(p, s'.cache[p], known)
  {
    var s1 := Advanced(s, op);
    if p in s.cache {
      s' := Advanced(s1, op);
      trace := [s1, s'];
    } else {
      var s2 := Advanced(s1, op);
      var s3 := Advanced(s2, op);
      if ActiveBelow(s.store, p, s.nextKey) == [] {
        NoneListed(s.store, p, s.nextKey);
        s' := s3;
        trace := [s1, s2, s3];
      } else {
        NewestIsListedFirst(s.store, p, s.nextKey);
        s' := Advanced(s3, op);
        trace := [s1, s2, s3, s'];
      }
    }
    StepsBefore(s, op, trace, s');
    trace := [s] + trace;
  }

  lemma NoneListed(store: Store, p: Purpose, n: Key)
    requires ActiveBelow(store, p, n) == []
    ensures forall k :: k in store && k < n ==> store[k] != Row(p, Active)
  {
    forall k | k in store && k < n
      ensures store[k] != Row(p, Active)
    {
      if store[k] == Row(p, Active) {
        ActiveIsListed(store, p, n, k);
      }
    }
  }

  /** A RetireKey retires this key, changes no other, and drops the signer of its purpose. */
  lemma LoneRetire(s: State, op: Op, k: Key) returns (trace: seq<State>, s': State)
    requires op in s.pcs && s.pcs[op] == RetireWrites(k) && s.lock.None? && k in s.store
    ensures RunsAlone(trace, op, s, s') && op in s'.pcs && s'.pcs[op].Returned?
    ensures s'.store == s.store[k := Row(s.store[k].purpose, Retired)]
    ensures s'.cache == Forget(s.cache, s.store[k].purpose)
  {
    var written := Advanced(s, op);
    var audited := Advanced(written, op);
    s' := Advanced(audited, op);
    trace := [s, written, audited, s'];
  }

  /** The listed keys have become retiring. */
  predicate AllDemoted(store: Store, listed: seq<Key>, store': Store) {
    && store'.Keys == store.Keys
    && forall k :: k in store ==> store'[k] == if k in listed then store[k].(state := Retiring) else store[k]
  }

  /** The last steps of a Rotate: the demotions and the second invalidation. */
  lemma {:induction false} DemotionsAlone(s: State, op: Op, p: Purpose, previous: seq<Key>, demoted: set<Key>)
    returns (trace: seq<State>, s': State)
    requires op in s.pcs && s.pcs[op] == RotateDemotes(p, previous, demoted) && s.lock.None?
    requires forall k :: k in previous ==> k in s.store
    ensures RunsAlone(trace, op, s, s') && op in s'.pcs && s'.pcs[op].Returned?
    ensures AllDemoted(s.store, previous, s'.store) && s'.cache == Forget(s.cache, p)
    decreases |previous|
  {
    var next := Advanced(s, op);
    if previous == [] {
      trace, s' := [s, next], next;
    } else {
      trace, s' := DemotionsAlone(next, op, p, previous[1..], demoted + {previous[0]});
      StepsBefore(s, op, trace, s');
      trace := [s] + trace;
      assert forall k :: k in previous <==> k == previous[0] || k in previous[1..];
    }
  }

  /** The first four steps of a Rotate: the list, the new key, its audit event and the first invalidation. */
  lemma CreationAlone(s: State, op: Op, p: Purpose) returns (trace: seq<State>, s': State)
    requires op in s.pcs && s.pcs[op] == RotateLists(p) && s.lock.None?
    ensures s'.store == s.store[s.nextKey := Row(p, Active)] && s'.cache == Forget(s.cache, p) && s'.lock.None?
    ensures op in s'.pcs && s'.pcs[op] == RotateDemotes(p, ActiveBelow(s.store, p, s.nextKey), {})
    ensures RunsAlone(trace, op, s, s')
  {
    var listed := Advanced(s, op);
    var created := Advanced(listed, op);
    var audited := Advanced(created, op);
    s' := Advanced(audited, op);
    trace := [s, listed, created, audited, s'];
  }

  /** There is a new active key, and exactly the active ones of the purpose have become retiring. */
  predicate Rotated(store: Store, p: Purpose, nextKey: Key, store': Store) {
    && store'.Keys == store.Keys + {nextKey} && store'[nextKey] == Row(p, Active)
    && forall k :: k in store ==> store'[k] == if store[k] == Row(p, Active) then Row(p, Retiring) else store[k]
  }

  /** Demoting the listed keys demotes exactly the active ones of the purpose. */
  lemma DemotesTheActive(store: Store, p: Purpose, nextKey: Key, store': Store)
    requires forall l :: l in store ==> l < nextKey
    requires AllDemoted(store[nextKey := Row(p, Active)], ActiveBelow(store, p, nextKey), store')
    ensures Rotated(store, p, nextKey, store')
  {
    var created := store[nextKey := Row(p, Active)];
    assert nextKey in created && nextKey !in ActiveBelow(store, p, nextKey);
    forall k | k in store && store[k] == Row(p, Active)
      ensures k in ActiveBelow(store, p, nextKey)
    {
      ActiveIsListed(store, p, nextKey, k);
    }
  }

  lemma RotateAlone(s: State, op: Op, p: Purpose) returns (trace: seq<State>, s': State)
    requires op in s.pcs && s.pcs[op] == RotateLists(p) && s.lock.None?
    ensures RunsAlone(trace, op, s, s') && op in s'.pcs && s'.pcs[op].Returned? && s'.cache == Forget(s.cache, p)
    ensures AllDemoted(s.store[s.nextKey := Row(p, Active)], ActiveBelow(s.store, p, s.nextKey), s'.store)
  {
    var before, created := CreationAlone(s, op, p);
    var after;
    after, s' := DemotionsAlone(created, op, p, ActiveBelow(s.store, p, s.nextKey), {});
    assert Forget(created.cache, p) == created.cache;
    RunsCompose(before, after, op, s, created, s');
    trace := before + after[1..];
  }

  /** A Rotate adds an active key, demotes exactly the active ones of the purpose, and drops its signer. */
  lemma LoneRotate(s: State, op: Op, p: Purpose) returns (trace: seq<State>, s': State)
    requires op in s.pcs && s.pcs[op] == RotateLists(p)
    requires s.lock.None? && forall l :: l in s.store ==> l < s.nextKey
    ensures RunsAlone(trace, op, s, s') && op in s'.pcs && s'.pcs[op].Returned?
    ensures Rotated(s.store, p, s.nextKey, s'.store) && s'.cache == Forget(s.cache, p)
  {
    trace, s' := RotateAlone(s, op, p);
    DemotesTheActive(s.store, p, s.nextKey, s'.store);
  }

  /* ---------------------------------------------------------------- exactly which keys can still sign */

  /** A run that ends in the state `last`. */
  ghost predicate Reaches(states: seq<State>, steps: seq<Step>, last: State) {
    IsRun(states, steps) && states[|states| - 1] == last
  }

  lemma Extend(states: seq<State>, steps: seq<Step>, last: State, step: Step)
    returns (states': seq<State>, steps': seq<Step>)
    requires Reaches(states, steps, last) && Enabled(last, step)
    ensures Reaches(states', steps', Next(last, step))
    ensures states' == states + [Next(last, step)] && steps' == steps + [step]
  {
    states', steps' := states + [Next(last, step)], steps + [step];
  }

  /** The key is cached for some purpose, or an Issue holds it and is about to put it into the cache. */
  ghost predicate Lingers(s: State, k: Key) {
    (exists p :: Caches(s, k, p)) || (exists op :: Fills(s, k, op))
  }

  predicate Caches(s: State, k: Key, p: Purpose) {
    p in s.cache && s.cache[p] == k
  }

  predicate Fills(s: State, k: Key, op: Op) {
    op in s.pcs && s.pcs[op].IssueFills? && s.pcs[op].key == Some(k)
  }

  /** An Issue has taken the key as its signer. */
  predicate SignsWith(s: State, k: Key, op: Op) {
    op in s.pcs && (s.pcs[op].IssueSigns? || s.pcs[op].Issued?) && s.pcs[op].signer == k
  }

  predicate NotActive(s: State, k: Key) {
    k in s.store && !s.store[k].state.Active?
  }

  lemma StaysUncached(s: State, op: Op, k: Key, p: Purpose)
    requires Enabled(s, Advance(op)) && !Lingers(s, k)
    ensures !Caches(Advanced(s, op), k, p)
  {
    assert !Caches(s, k, p) && !Fills(s, k, op);
  }

  /** What an operation does next: it neither reads a key that is not active nor takes one from the cache. */
  lemma StaysUnread(s: State, op: Op, k: Key)
    requires Enabled(s, Advance(op)) && NotActive(s, k) && !Lingers(s, k)
    ensures !Fills(Advanced(s, op), k, op)
    ensures SignsWith(Advanced(s, op), k, op) ==> SignsWith(s, k, op)
  {
    assert !Fills(s, k, op);
    if s.pcs[op].IssueReads? {
      var active := ActiveBelow(s.store, s.pcs[op].purpose, s.nextKey);
      assert active == [] || active[0] in active;
    } else if s.pcs[op].IssueLooksUp? {
      assert !Caches(s, k, s.pcs[op].purpose);
    }
  }

  lemma OthersKeepPc(s: State, step: Step, op: Op)
    requires Enabled(s, step) && (step.OtherReplica? || step.op != op)
    ensures op in Next(s, step).pcs <==> op in s.pcs
    ensures op in s.pcs ==> Next(s, step).pcs[op] == s.pcs[op]
  {
    if step.Advance? {
      AdvanceMovesOne(s, step.op, op);
    }
  }

  lemma AdvanceMovesOne(s: State, op: Op, other: Op)
    requires op in s.pcs && op != other
    ensures other in Advanced(s, op).pcs <==> other in s.pcs
    ensures other in s.pcs ==> Advanced(s, op).pcs[other] == s.pcs[other]
  {
    if IsIssue(s.pcs[op]) {
    } else if s.pcs[op].RetireWrites? || s.pcs[op].RetireAudits? || s.pcs[op].RetireInvalidates? {
    } else {
    }
  }

  lemma StaysNotActive(s: State, step: Step, k: Key)
    requires Inv(s) && Enabled(s, step) && NotActive(s, k)
    ensures NotActive(Next(s, step), k)
  {
    if step.Advance? {
      AdvanceKeepsStore(s, step.op);
    }
  }

  /** A key that is neither active nor lingering stays so, and no further Issue takes it as its signer. */
  lemma StaysOutOfReach(s: State, step: Step, k: Key)
    requires Inv(s) && Enabled(s, step) && NotActive(s, k) && !Lingers(s, k)
    ensures NotActive(Next(s, step), k) && !Lingers(Next(s, step), k)
    ensures forall op :: SignsWith(Next(s, step), k, op) ==> SignsWith(s, k, op)
  {
    var s' := Next(s, step);
    StaysNotActive(s, step, k);
    forall p
      ensures !Caches(s', k, p)
    {
      assert !Caches(s, k, p);
      if step.Advance? {
        StaysUncached(s, step.op, k, p);
      }
    }
    forall op
      ensures !Fills(s', k, op) && (SignsWith(s', k, op) ==> SignsWith(s, k, op))
    {
      assert !Fills(s, k, op);
      if step.OtherReplica? || step.op != op {
        OthersKeepPc(s, step, op);
      } else if step.Advance? {
        StaysUnread(s, op, k);
      }
    }
  }

  lemma {:induction false} OutOfReachForGood(states: seq<State>, steps: seq<Step>, k: Key, i: nat, m: nat)
    requires IsRun(states, steps) && i <= m < |states|
    requires NotActive(states[i], k) && !Lingers(states[i], k)
    ensures NotActive(states[m], k) && !Lingers(states[m], k)
    ensures forall op :: SignsWith(states[m], k, op) ==> SignsWith(states[i], k, op)
    decreases m - i
  {
    if i < m {
      OutOfReachForGood(states, steps, k, i, m - 1);
      RunKeepsInv(states, steps, m - 1);
      var s, step := states[m - 1], steps[m - 1];
      assert Enabled(s, step) && states[m - 1 + 1] == Next(s, step);
      StaysOutOfReach(s, step, k);
    }
  }

  lemma FreshOp(pcs: map<Op, Pc>) returns (op: Op)
    ensures op !in pcs
  {
    op := AboveAll(pcs.Keys);
  }

  lemma {:induction false} AboveAll(ops: set<Op>) returns (n: Op)
    ensures forall op :: op in ops ==> op < n
    decreases |ops|
  {
    if ops == {} {
      n := 0;
    } else {
      var op :| op in ops;
      var m := AboveAll(ops - {op});
      n := if op < m then m else op + 1;
      assert forall o :: o in ops ==> o == op || o in ops - {op};
    }
  }

  /** The run goes on until the key is cached and the mutex is free. */
  lemma CacheAndRelease(states: seq<State>, steps: seq<Step>, s: State, k: Key)
    returns (states': seq<State>, steps': seq<Step>, s': State, p: Purpose)
    requires Reaches(states, steps, s) && Inv(s) && Lingers(s, k)
    ensures Reaches(states', steps', s') && states <= states' && steps <= steps'
    ensures Caches(s', k, p) && s'.lock.None?
  {
    if op :| Fills(s, k, op) {
      assert PcInv(s, op, s.pcs[op]);
      p := s.pcs[op].purpose;
      s' := Next(s, Advance(op));
      states', steps' := Extend(states, steps, s, Advance(op));
    } else {
      p :| Caches(s, k, p);
      if s.lock.Some? {
        var holder := s.lock.value;
        assert PcInv(s, holder, s.pcs[holder]);
        s' := Next(s, Fail(holder));
        states', steps' := Extend(states, steps, s, Fail(holder));
      } else {
        states', steps', s' := states, steps, s;
      }
    }
  }

  /** With the key cached and the mutex free a new Issue signs with it. */
  lemma NewIssueSigns(states: seq<State>, steps: seq<Step>, s: State, k: Key, p: Purpose)
    returns (states': seq<State>, steps': seq<Step>, op: Op)
    requires Reaches(states, steps, s) && Caches(s, k, p) && s.lock.None?
    ensures IsRun(states', steps') && states <= states' && steps <= steps' && |steps| < |steps'|
    ensures steps'[|steps|] == StartIssue(op, p)
    ensures
      var last := states'[|states'| - 1];
      SignsWith(last, k, op) && last.pcs[op].Issued?
  {
    op := FreshOp(s.pcs);
    states', steps' := Extend(states, steps, s, StartIssue(op, p));
    var s1 := Next(s, StartIssue(op, p));
    states', steps' := Extend(states', steps', s1, Advance(op));
    var s2 := Next(s1, Advance(op));
    assert s2.pcs[op] == IssueSigns(p, k, s.outOfService);
    states', steps' := Extend(states', steps', s2, Advance(op));
  }

  /** A continuation of the run in which an Issue that starts after it gets a certificate signed with the key. */
  ghost predicate LaterSigned(
    states: seq<State>, steps: seq<Step>, states': seq<State>, steps': seq<Step>, k: Key, j: nat, m: nat)
    requires IsRun(states, steps)
  {
    && IsRun(states', steps') && states <= states' && steps <= steps'
    && |steps| <= j < m < |states'| && steps'[j].StartIssue?
    && SignsWith(states'[m], k, steps'[j].op) && states'[m].pcs[steps'[j].op].Issued?
  }

  lemma LaterSignedLingers(
    states: seq<State>, steps: seq<Step>, states': seq<State>, steps': seq<Step>, k: Key, j: nat, m: nat)
    requires IsRun(states, steps) && NotActive(states[|steps|], k)
    requires LaterSigned(states, steps, states', steps', k, j, m)
    ensures Lingers(states[|steps|], k)
  {
    var op := steps'[j].op;
    assert Enabled(states'[j], steps'[j]) && op !in states'[j].pcs;
    if !Lingers(states[|steps|], k) {
      assert states'[|steps|] == states[|steps|];
      OutOfReachForGood(states', steps', k, |steps|, j);
      OutOfReachForGood(states', steps', k, j, m);
    }
  }

  /**
   Main result: a key that is no longer active can sign for an Issue that starts later, in some
   continuation of the run, exactly when it lingers. Success of RetireKey or Rotate is one way to know
   that it does not; after a failure the question is whether it was cached.
   */
  lemma LateSignatureExactly(states: seq<State>, steps: seq<Step>, k: Key)
    requires IsRun(states, steps) && NotActive(states[|steps|], k)
    ensures Lingers(states[|steps|], k)
            <==> exists states', steps', j, m :: LaterSigned(states, steps, states', steps', k, j, m)
  {
    var s := states[|steps|];
    if Lingers(s, k) {
      RunKeepsInv(states, steps, |steps|);
      var more, moreSteps, s', p := CacheAndRelease(states, steps, s, k);
      var states', steps', op := NewIssueSigns(more, moreSteps, s', k, p);
      assert LaterSigned(states, steps, states', steps', k, |moreSteps|, |states'| - 1);
    } else {
      forall states', steps', j, m
        ensures !LaterSigned(states, steps, states', steps', k, j, m)
      {
        if LaterSigned(states, steps, states', steps', k, j, m) {
          LaterSignedLingers(states, steps, states', steps', k, j, m);
        }
      }
    }
  }

  /** A key out of service does not linger, so success implies the condition. */
  lemma OutOfServiceDoesNotLinger(s: State, k: Key)
    requires Inv(s) && k in s.outOfService
    ensures NotActive(s, k) && !Lingers(s, k)
  {
    forall op | op in s.pcs
      ensures !Fills(s, k, op)
    {
      assert PcInv(s, op, s.pcs[op]);
    }
  }

  /* ---------------------------------------------------------------- when key states move forward */

  function Rank(state: KeyState): nat {
    match state case Active => 0 case Retiring => 1 case Retired => 2
  }

  /** Rows stay and no state moves back. */
  ghost predicate StatesForward(store: Store, store': Store) {
    forall k :: k in store ==> k in store' && Rank(store[k].state) <= Rank(store'[k].state)
  }

  predicate IsRetired(store: Store, k: Key) {
    k in store && store[k].state.Retired?
  }

  /** The keys a Rotate has listed and not demoted yet. */
  function Pending(pc: Pc): seq<Key> {
    match pc
    case RotateCreates(_, previous) => previous
    case RotateAudits(_, previous) => previous
    case CreateInvalidates(_, previous) => previous
    case RotateDemotes(_, previous, _) => previous
    case _ => []
  }

  predicate IsPending(s: State, op: Op, k: Key) {
    op in s.pcs && k in Pending(s.pcs[op])
  }

  /** The step is a Rotate's demotion of `k`. */
  predicate Demotes(s: State, step: Step, k: Key) {
    && step.Advance? && step.op in s.pcs && s.pcs[step.op].RotateDemotes?
    && s.pcs[step.op].previous != [] && s.pcs[step.op].previous[0] == k
  }

  /** The step retires `k`. */
  predicate Retires(s: State, step: Step, k: Key)
    requires step.Advance? || step.Fail? ==> step.op in s.pcs
  {
    !IsRetired(s.store, k) && IsRetired(Next(s, step).store, k)
  }

  /** In this process only the store write of RetireKey retires a key. */
  lemma OnlyRetireKeyRetires(s: State, step: Step, k: Key)
    requires Inv(s) && Enabled(s, step) && Retires(s, step, k)
    ensures step.OtherReplica? || (step.Advance? && s.pcs[step.op] == RetireWrites(k))
  {
    if step.Advance? {
      assert PcInv(s, step.op, s.pcs[step.op]);
    }
  }

  /** One step: only the demotion of a key that is retired by now moves a state back. */
  lemma AdvanceMovesForwardExactly(s: State, op: Op)
    requires Inv(s) && Enabled(s, Advance(op))
    ensures StatesForward(s.store, Advanced(s, op).store)
            <==> forall k :: Demotes(s, Advance(op), k) ==> !IsRetired(s.store, k)
  {
    assert PcInv(s, op, s.pcs[op]);
    if s.pcs[op].RotateDemotes? && s.pcs[op].previous != [] {
      var k := s.pcs[op].previous[0];
      assert k in s.pcs[op].previous && Demotes(s, Advance(op), k);
      assert k in s.store && Rank(Advanced(s, op).store[k].state) == 1;
    }
  }

  /** No operation has a retired key left to demote. */
  ghost predicate NoOverlap(s: State) {
    forall op, k :: IsPending(s, op, k) ==> !IsRetired(s.store, k)
  }

  /** After a step, an operation's pending keys were pending before or have just been listed as active. */
  lemma PendingComesFromList(s: State, step: Step, op: Op, k: Key)
    requires Inv(s) && Enabled(s, step) && IsPending(Next(s, step), op, k)
    ensures IsPending(s, op, k) || (!IsRetired(s.store, k) && Next(s, step).store == s.store)
  {
    if step.Advance? && step.op == op && s.pcs[op].RotateDemotes? {
      assert s.pcs[op].previous[0] in s.pcs[op].previous;
      assert forall l :: l in s.pcs[op].previous[1..] ==> l in s.pcs[op].previous;
    }
  }

  /** A pending key that is retired after a step was so before, or the step retires it. */
  lemma RetiredPendingStep(s: State, step: Step, op: Op, k: Key)
    requires Inv(s) && Enabled(s, step)
    requires IsPending(Next(s, step), op, k) && IsRetired(Next(s, step).store, k)
    ensures IsPending(s, op, k) && (IsRetired(s.store, k) || Retires(s, step, k))
  {
    PendingComesFromList(s, step, op, k);
  }

  /** A step that retires a key leaves every list of pending keys alone. */
  lemma RetiringKeepsPending(s: State, step: Step, op: Op, k: Key)
    requires Enabled(s, step) && Retires(s, step, k) && IsPending(s, op, k)
    ensures IsPending(Next(s, step), op, k)
  {
  }

  /** Exactly one thing ends the absence of overlaps: a key is retired while a Rotate has it pending. */
  lemma NoOverlapLostExactly(s: State, step: Step)
    requires Inv(s) && NoOverlap(s) && Enabled(s, step)
    ensures NoOverlap(Next(s, step)) <==> forall op, k :: Retires(s, step, k) ==> !IsPending(s, op, k)
  {
    var s' := Next(s, step);
    forall op, k | IsPending(s', op, k) && IsRetired(s'.store, k)
      ensures Retires(s, step, k) && IsPending(s, op, k)
    {
      RetiredPendingStep(s, step, op, k);
    }
    forall op, k | Retires(s, step, k) && IsPending(s, op, k)
      ensures IsPending(s', op, k) && IsRetired(s'.store, k)
    {
      RetiringKeepsPending(s, step, op, k);
    }
  }

  /** Step l retires `k` after `op` listed it and before `op` demoted it. */
  ghost predicate RetiredWhilePending(states: seq<State>, steps: seq<Step>, l: nat, op: Op, k: Key)
    requires IsRun(states, steps) && l < |steps|
  {
    Retires(states[l], steps[l], k) && IsPending(states[l], op, k)
  }

  /** A pending key that is retired was retired while it was pending: the list holds active keys only. */
  lemma {:induction false} RetiredPendingHasCause(states: seq<State>, steps: seq<Step>, n: nat, op: Op, k: Key)
    returns (l: nat)
    requires IsRun(states, steps) && n < |states|
    requires IsPending(states[n], op, k) && IsRetired(states[n].store, k)
    ensures l < n && RetiredWhilePending(states, steps, l, op, k)
  {
    assert n > 0;
    var s, step := states[n - 1], steps[n - 1];
    RunKeepsInv(states, steps, n - 1);
    assert Enabled(s, step) && states[n - 1 + 1] == Next(s, step);
    RetiredPendingStep(s, step, op, k);
    if IsRetired(s.store, k) {
      l := RetiredPendingHasCause(states, steps, n - 1, op, k);
    } else {
      l := n - 1;
    }
  }

  /** No state moves back in any step of the run. */
  ghost predicate RunForward(states: seq<State>, steps: seq<Step>)
    requires IsRun(states, steps)
  {
    forall i :: 0 <= i < |steps| ==> StatesForward(states[i].store, states[i + 1].store)
  }

  /** The other replicas move no state back. */
  ghost predicate OthersForward(states: seq<State>, steps: seq<Step>)
    requires IsRun(states, steps)
  {
    forall i :: 0 <= i < |steps| && steps[i].OtherReplica? ==> StatesForward(states[i].store, states[i + 1].store)
  }

  /** Somewhere a Rotate demotes a key that was retired, at an earlier step, while that Rotate had it pending. */
  ghost predicate Overtaken(states: seq<State>, steps: seq<Step>, l: nat, i: nat, k: Key)
    requires IsRun(states, steps)
  {
    && l < i < |steps| && Demotes(states[i], steps[i], k)
    && RetiredWhilePending(states, steps, l, steps[i].op, k)
  }

  lemma {:induction false} RetiredStaysRetired(states: seq<State>, steps: seq<Step>, n: nat, m: nat, k: Key)
    requires IsRun(states, steps) && RunForward(states, steps)
    requires n <= m < |states| && IsRetired(states[n].store, k)
    ensures IsRetired(states[m].store, k)
    decreases m - n
  {
    if n < m {
      RetiredStaysRetired(states, steps, n, m - 1, k);
      assert StatesForward(states[m - 1].store, states[m - 1 + 1].store);
    }
  }

  /** A step that is no demotion of a retired key moves no state back. */
  lemma StepMovesForward(states: seq<State>, steps: seq<Step>, i: nat)
    requires IsRun(states, steps) && OthersForward(states, steps) && i < |steps|
    requires forall l: nat, k :: !Overtaken(states, steps, l, i, k)
    ensures StatesForward(states[i].store, states[i + 1].store)
  {
    RunKeepsInv(states, steps, i);
    var s, step := states[i], steps[i];
    if step.Advance? {
      forall k | Demotes(s, step, k)
        ensures !IsRetired(s.store, k)
      {
        if IsRetired(s.store, k) {
          assert IsPending(s, step.op, k);
          var l := RetiredPendingHasCause(states, steps, i, step.op, k);
          assert Overtaken(states, steps, l, i, k);
        }
      }
      AdvanceMovesForwardExactly(s, step.op);
    }
  }

  /**
   Main result: key states only move forward over a run exactly when no Rotate demotes a key that was
   retired after that Rotate had listed it.
   */
  lemma StatesMoveForwardExactly(states: seq<State>, steps: seq<Step>)
    requires IsRun(states, steps) && OthersForward(states, steps)
    ensures RunForward(states, steps) <==> forall l: nat, i: nat, k :: !Overtaken(states, steps, l, i, k)
  {
    if forall l: nat, i: nat, k :: !Overtaken(states, steps, l, i, k) {
      forall i | 0 <= i < |steps|
        ensures StatesForward(states[i].store, states[i + 1].store)
      {
        StepMovesForward(states, steps, i);
      }
    }
    if RunForward(states, steps) {
      forall l: nat, i: nat, k
        ensures !Overtaken(states, steps, l, i, k)
      {
        if Overtaken(states, steps, l, i, k) {
          assert StatesForward(states[i].store, states[i + 1].store);
          RunKeepsInv(states, steps, i);
          RetiredStaysRetired(states, steps, l + 1, i, k);
          AdvanceMovesForwardExactly(states[i], steps[i].op);
        }
      }
    }
  }

  /** In particular: as long as no key is retired while a Rotate has it pending, states move forward throughout. */
  lemma {:induction false} ForwardWithoutOverlap(states: seq<State>, steps: seq<Step>, n: nat, m: nat)
    requires IsRun(states, steps) && OthersForward(states, steps)
    requires forall l: nat, op, k :: l < |steps| ==> !RetiredWhilePending(states, steps, l, op, k)
    requires n <= m < |states|
    ensures StatesForward(states[n].store, states[m].store)
    decreases m - n
  {
    if n < m {
      var i: nat := m - 1;
      ForwardWithoutOverlap(states, steps, n, i);
      assert forall l: nat, k :: !Overtaken(states, steps, l, i, k);
      StepMovesForward(states, steps, i);
    }
  }

  /* ---------------------------------------------------------------- concrete runs */

  const ONE_ACTIVE: Store := map[0 := Row(User, Active)]
  const ONE_RETIRED: Store := map[0 := Row(User, Retired)]
  const SIGNING: Pc := IssueSigns(User, 0, {})

  /** An Issue found the cache empty and holds the mutex. */
  lemma IssueMissedCache() returns (states: seq<State>, steps: seq<Step>)
    ensures Reaches(states, steps, State(ONE_ACTIVE, 1, map[], Some(0), map[0 := IssueReads(User, {})], {}))
  {
    var s := State(ONE_ACTIVE, 1, map[], None, map[], {});
    states, steps := [s], [];
    states, steps := Extend(states, steps, s, StartIssue(0, User));
    s := s.(pcs := map[0 := IssueLooksUp(User, {})]);
    states, steps := Extend(states, steps, s, Advance(0));
  }

  /** It read key 0 and put it into the cache. */
  lemma IssueFilledCache() returns (states: seq<State>, steps: seq<Step>)
    ensures Reaches(states, steps, State(ONE_ACTIVE, 1, map[User := 0], None, map[0 := SIGNING], {}))
  {
    states, steps := IssueMissedCache();
    var s := State(ONE_ACTIVE, 1, map[], Some(0), map[0 := IssueReads(User, {})], {});
    assert ActiveBelow(ONE_ACTIVE, User, 0) == [] && ActiveBelow(ONE_ACTIVE, User, 1) == [0];
    states, steps := Extend(states, steps, s, Advance(0));
    s := s.(pcs := map[0 := IssueFills(User, Some(0), {})]);
    states, steps := Extend(states, steps, s, Advance(0));
  }

  /** RetireKey wrote the retired state and then failed to write its audit entry. */
  lemma RetireFailedHalfWay() returns (states: seq<State>, steps: seq<Step>)
    ensures Reaches(states, steps, State(ONE_RETIRED, 1, map[User := 0], None, map[0 := SIGNING, 1 := Failed], {}))
  {
    states, steps := IssueFilledCache();
    var s := State(ONE_ACTIVE, 1, map[User := 0], None, map[0 := SIGNING], {});
    states, steps := Extend(states, steps, s, StartRetire(1, 0));
    s := s.(pcs := map[0 := SIGNING, 1 := RetireWrites(0)]);
    states, steps := Extend(states, steps, s, Advance(1));
    s := s.(store := ONE_RETIRED, pcs := map[0 := SIGNING, 1 := RetireAudits(0, User)]);
    states, steps := Extend(states, steps, s, Fail(1));
  }

  /**
   Success matters: a RetireKey that failed after its store write leaves a cached key in the cache, and an
   Issue that starts afterwards still signs with it although the store says retired. LateSignatureExactly
   says for which keys this can happen.
   */
  lemma FailedRetireKeepsSigning() returns (states: seq<State>, steps: seq<Step>, j: nat)
    ensures IsRun(states, steps) && j < |steps| && steps[j] == StartIssue(2, User)
    ensures 0 in states[j].store && states[j].store[0].state.Retired?
    ensures
      var last := states[|states| - 1];
      2 in last.pcs && last.pcs[2].Issued? && last.pcs[2].signer == 0
  {
    states, steps := RetireFailedHalfWay();
    var s := State(ONE_RETIRED, 1, map[User := 0], None, map[0 := SIGNING, 1 := Failed], {});
    j := |steps|;
    states, steps := Extend(states, steps, s, StartIssue(2, User));
    s := s.(pcs := map[0 := SIGNING, 1 := Failed, 2 := IssueLooksUp(User, {})]);
    states, steps := Extend(states, steps, s, Advance(2));
    s := s.(pcs := map[0 := SIGNING, 1 := Failed, 2 := SIGNING]);
    states, steps := Extend(states, steps, s, Advance(2));
  }

  lemma RotateHasListed() returns (states: seq<State>, steps: seq<Step>)
    ensures Reaches(states, steps, State(ONE_ACTIVE, 1, map[], None,
                                         map[0 := RotateCreates(User, [0])], {}))
  {
    var s := State(ONE_ACTIVE, 1, map[], None, map[], {});
    states, steps := [s], [];
    states, steps := Extend(states, steps, s, StartRotate(0, User));
    s := s.(pcs := map[0 := RotateLists(User)]);
    assert ActiveBelow(ONE_ACTIVE, User, 0) == [] && ActiveBelow(ONE_ACTIVE, User, 1) == [0];
    states, steps := Extend(states, steps, s, Advance(0));
  }

  /** Key 0 was listed by a Rotate and has then been retired with success. */
  lemma RetiredDuringRotate() returns (states: seq<State>, steps: seq<Step>)
    ensures Reaches(states, steps, State(ONE_RETIRED, 1, map[], None,
                                         map[0 := RotateCreates(User, [0]), 1 := Returned], {0}))
  {
    states, steps := RotateHasListed();
    var rotate := RotateCreates(User, [0]);
    var s := State(ONE_ACTIVE, 1, map[], None, map[0 := rotate], {});
    states, steps := Extend(states, steps, s, StartRetire(1, 0));
    s := s.(pcs := map[0 := rotate, 1 := RetireWrites(0)]);
    states, steps := Extend(states, steps, s, Advance(1));
    s := s.(store := ONE_RETIRED, pcs := map[0 := rotate, 1 := RetireAudits(0, User)]);
    states, steps := Extend(states, steps, s, Advance(1));
    s := s.(pcs := map[0 := rotate, 1 := RetireInvalidates(0, User)]);
    states, steps := Extend(states, steps, s, Advance(1));
    assert Forget(map[], User) == map[] && {} + {0} == {0};
  }

  /**
   The forbidden overlap happens: a Rotate that listed a key before it was retired sets it back to
   retiring afterwards, so it is in the bundle again.
   */
  lemma OverlappingRotateRevivesKey() returns (states: seq<State>, steps: seq<Step>, i: nat)
    ensures IsRun(states, steps) && i < |states|
    ensures 0 in states[i].outOfService && 0 in states[i].store && states[i].store[0].state.Retired?
    ensures
      var last := states[|states| - 1];
      0 in last.store && last.store[0].state.Retiring?
  {
    states, steps := RetiredDuringRotate();
    i := |states| - 1;
    var s := State(ONE_RETIRED, 1, map[], None,
                   map[0 := RotateCreates(User, [0]), 1 := Returned], {0});
    states, steps := Extend(states, steps, s, Advance(0));
    s := s.(store := map[0 := Row(User, Retired), 1 := Row(User, Active)], nextKey := 2,
            pcs := map[0 := RotateAudits(User, [0]), 1 := Returned]);
    states, steps := Extend(states, steps, s, Advance(0));
    s := s.(pcs := map[0 := CreateInvalidates(User, [0]), 1 := Returned]);
    states, steps := Extend(states, steps, s, Advance(0));
    s := s.(pcs := map[0 := RotateDemotes(User, [0], {}), 1 := Returned]);
    states, steps := Extend(states, steps, s, Advance(0));
  }
}
