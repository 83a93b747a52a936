/**
 The fail-closed principals cache of the host agent (internal/agentd/daemon.go): concurrent lookups, API
 failures and restarts under a clock that does not run backwards. Times are nanoseconds.
 */
module PrincipalsCache {
  import opened Common

  type User = string
  type Op = nat

  datatype Entry = Entry(principals: seq<string>, fetchedAt: int)

  type Cache = map<User, Entry>

  /** An answer of the API, with the time it was stamped with when it entered the cache. */
  datatype Answer = Answer(user: User, principals: seq<string>, stamp: int)

  const MIN_FRESH: int := 10_000_000_000

  /* ---------------------------------------------------------------- interleavings */

  /** One lookup; every step that takes the mutex or touches the file is atomic. */
  datatype Pc =
    | Looked(user: User, entry: Option<Entry>)
    | Calling(user: User, entry: Option<Entry>)
    | ApiFailed(user: User, entry: Option<Entry>)
    | Stored(user: User, principals: seq<string>, stamp: int)
    | Writing(user: User, principals: seq<string>, stamp: int, snapshot: Cache)
    | Served(user: User, principals: seq<string>, stamp: int, decidedAt: int)
    | Denied(user: User)

  datatype State = State(now: int, cache: Cache, file: Cache, pcs: map<Op, Pc>)

  datatype Step =
    | Tick(now: int)
    | Look(op: Op, user: User)
    | CheckFresh(op: Op)
    | ApiAnswers(op: Op, principals: seq<string>)
    | ApiFails(op: Op)
    | CheckTTL(op: Op)
    | Snapshot(op: Op)
    | Write(op: Op, works: bool)
    | Restart(readable: bool)

  predicate Enabled(s: State, step: Step) {
    match step
    case Tick(now) => s.now <= now
    case Look(op, _) => op !in s.pcs
    case CheckFresh(op) => op in s.pcs && s.pcs[op].Looked?
    case ApiAnswers(op, _) => op in s.pcs && s.pcs[op].Calling?
    case ApiFails(op) => op in s.pcs && s.pcs[op].Calling?
    case CheckTTL(op) => op in s.pcs && s.pcs[op].ApiFailed?
    case Snapshot(op) => op in s.pcs && s.pcs[op].Stored?
    case Write(op, _) => op in s.pcs && s.pcs[op].Writing?
    case Restart(_) => true
  }

  /** Younger than `limit` at time `now`. */
  predicate Young(entry: Option<Entry>, now: int, limit: int) {
    entry.Some? && now - entry.value.fetchedAt < limit
  }

  function ServedFrom(user: User, e: Entry, now: int): Pc {
    Served(user, e.principals, e.fetchedAt, now)
  }

  function Next(s: State, step: Step, ttl: int): State
    requires Enabled(s, step)
  {
    match step
    case Tick(now) => s.(now := now)
    case Look(op, user) =>
      s.(pcs := s.pcs[op := Looked(user, if user in s.cache then Some(s.cache[user]) else None)])
    case CheckFresh(op) =>
      var pc := s.pcs[op];
      s.(pcs := s.pcs[op := if Young(pc.entry, s.now, MIN_FRESH) then ServedFrom(pc.user, pc.entry.value, s.now)
                            else Calling(pc.user, pc.entry)])
    case ApiAnswers(op, principals) =>
      var user := s.pcs[op].user;
      s.(cache := s.cache[user := Entry(principals, s.now)],
         pcs := s.pcs[op := Stored(user, principals, s.now)])
    case ApiFails(op) => s.(pcs := s.pcs[op := ApiFailed(s.pcs[op].user, s.pcs[op].entry)])
    case CheckTTL(op) =>
      var pc := s.pcs[op];
      s.(pcs := s.pcs[op := if Young(pc.entry, s.now, ttl) then ServedFrom(pc.user, pc.entry.value, s.now)
                            else Denied(pc.user)])
    case Snapshot(op) =>
      var pc := s.pcs[op];
      s.(pcs := s.pcs[op := Writing(pc.user, pc.principals, pc.stamp, s.cache)])
    case Write(op, works) =>
      var pc := s.pcs[op];
      s.(file := if works then pc.snapshot else s.file,
         pcs := s.pcs[op := Served(pc.user, pc.principals, pc.stamp, pc.stamp)])
    case Restart(readable) => s.(cache := if readable then s.file else map[], pcs := map[])
  }

  /** The answer that a step receives from the API, stamped with its time. */
  function Given(s: State, step: Step): set<Answer>
    requires Enabled(s, step)
  {
    if step.ApiAnswers? then {Answer(s.pcs[step.op].user, step.principals, s.now)} else {}
  }

  /** Everything in a cache is an answer of the API for that very user, stamped in the past. */
  ghost predicate Genuine(answers: set<Answer>, now: int, cache: Cache) {
    forall u :: u in cache ==>
      Answer(u, cache[u].principals, cache[u].fetchedAt) in answers && cache[u].fetchedAt <= now
  }

  ghost predicate GenuineEntry(answers: set<Answer>, now: int, user: User, entry: Option<Entry>) {
    entry.Some? ==>
      Answer(user, entry.value.principals, entry.value.fetchedAt) in answers && entry.value.fetchedAt <= now
  }

  /** What a served list promises: an answer of the API for this user, young enough when it was chosen. */
  ghost predicate ServedRight(answers: set<Answer>, now: int, pc: Pc, ttl: int)
    requires pc.Served?
  {
    && Answer(pc.user, pc.principals, pc.stamp) in answers
    && pc.stamp <= pc.decidedAt <= now
    && pc.decidedAt - pc.stamp < Max(MIN_FRESH, ttl)
  }

  ghost predicate PcInv(answers: set<Answer>, now: int, pc: Pc, ttl: int) {
    match pc
    case Looked(u, e) => GenuineEntry(answers, now, u, e)
    case Calling(u, e) => GenuineEntry(answers, now, u, e)
    case ApiFailed(u, e) => GenuineEntry(answers, now, u, e)
    case Stored(u, ps, stamp) => Answer(u, ps, stamp) in answers && stamp <= now
    case Writing(u, ps, stamp, snapshot) =>
      Answer(u, ps, stamp) in answers && stamp <= now && Genuine(answers, now, snapshot)
    case Served(_, _, _, _) => ServedRight(answers, now, pc, ttl)
    case Denied(_) => true
  }

  /** The cache, the file and everything on its way hold only the answers given so far. */
  ghost predicate Inv(s: State, answers: set<Answer>, ttl: int) {
    && Genuine(answers, s.now, s.cache) && Genuine(answers, s.now, s.file)
    && forall op :: op in s.pcs ==> PcInv(answers, s.now, s.pcs[op], ttl)
  }

  lemma StillTrue(answers: set<Answer>, more: set<Answer>, now: int, later: int, pc: Pc, ttl: int)
    requires PcInv(answers, now, pc, ttl) && now <= later
    ensures PcInv(answers + more, later, pc, ttl)
  {
  }

  lemma StepKeepsInv(s: State, step: Step, answers: set<Answer>, ttl: int)
    requires Inv(s, answers, ttl) && Enabled(s, step)
    ensures Inv(Next(s, step, ttl), answers + Given(s, step), ttl)
  {
    var s', more := Next(s, step, ttl), Given(s, step);
    forall op | op in s'.pcs
      ensures PcInv(answers + more, s'.now, s'.pcs[op], ttl)
    {
      if op in s.pcs {
        assert PcInv(answers, s.now, s.pcs[op], ttl);
        StillTrue(answers, more, s.now, s'.now, s.pcs[op], ttl);
      }
    }
  }

  /** A first start with an empty cache and no file. */
  ghost predicate Init(s: State) {
    s.cache == map[] && s.file == map[] && s.pcs == map[]
  }

  ghost predicate StepAt(states: seq<State>, steps: seq<Step>, ttl: int, i: nat)
    requires |states| == |steps| + 1 && i < |steps|
  {
    Enabled(states[i], steps[i]) && states[i + 1] == Next(states[i], steps[i], ttl)
  }

  ghost predicate IsRun(states: seq<State>, steps: seq<Step>, ttl: int) {
    && |states| == |steps| + 1 && Init(states[0])
    && forall i :: 0 <= i < |steps| ==> StepAt(states, steps, ttl, i)
  }

  /** The answers the API gave in the first `n` steps of a run. */
  ghost function AllGiven(states: seq<State>, steps: seq<Step>, ttl: int, n: nat): set<Answer>
    requires IsRun(states, steps, ttl) && n < |states|
  {
    if n == 0 then {}
    else
      assert StepAt(states, steps, ttl, n - 1);
      AllGiven(states, steps, ttl, n - 1) + Given(states[n - 1], steps[n - 1])
  }

  lemma {:induction false} RunKeepsInv(states: seq<State>, steps: seq<Step>, ttl: int, n: nat)
    requires IsRun(states, steps, ttl) && n < |states|
    ensures Inv(states[n], AllGiven(states, steps, ttl, n), ttl)
  {
    if n > 0 {
      RunKeepsInv(states, steps, ttl, n - 1);
      assert StepAt(states, steps, ttl, n - 1);
      StepKeepsInv(states[n - 1], steps[n - 1], AllGiven(states, steps, ttl, n - 1), ttl);
    }
  }

  /** An answer that was given was given at some step. */
  lemma {:induction false} GivenAtSomeStep(states: seq<State>, steps: seq<Step>, ttl: int, n: nat, a: Answer)
    returns (i: nat)
    requires IsRun(states, steps, ttl) && n < |states| && a in AllGiven(states, steps, ttl, n)
    ensures i < n && Gives(states, steps, i, a)
  {
    assert StepAt(states, steps, ttl, n - 1);
    if a in AllGiven(states, steps, ttl, n - 1) {
      i := GivenAtSomeStep(states, steps, ttl, n - 1, a);
    } else {
      i := n - 1;
    }
  }

  /** At step `i` the API answers a lookup for this user with this list, at the time of the stamp. */
  predicate Gives(states: seq<State>, steps: seq<Step>, i: nat, a: Answer) {
    && i < |steps| && i < |states| && steps[i].ApiAnswers? && steps[i].op in states[i].pcs
    && states[i].pcs[steps[i].op].user == a.user && steps[i].principals == a.principals && states[i].now == a.stamp
  }

  /**
   Main result: in every interleaving of lookups, API failures, file errors and restarts, every list that
   is served for a user is one the API returned, at step i, to a lookup for that user, less than
   max(minFresh, CacheTTL) before it was chosen.
   */
  lemma EveryServedListIsGenuine(states: seq<State>, steps: seq<Step>, ttl: int, n: nat, op: Op) returns (i: nat)
    requires IsRun(states, steps, ttl) && n < |states| && op in states[n].pcs && states[n].pcs[op].Served?
    ensures
      var pc := states[n].pcs[op];
      && i < n && Gives(states, steps, i, Answer(pc.user, pc.principals, pc.stamp))
      && pc.stamp <= pc.decidedAt <= states[n].now && pc.decidedAt - pc.stamp < Max(MIN_FRESH, ttl)
  {
    RunKeepsInv(states, steps, ttl, n);
    var pc := states[n].pcs[op];
    assert PcInv(AllGiven(states, steps, ttl, n), states[n].now, pc, ttl);
    i := GivenAtSomeStep(states, steps, ttl, n, Answer(pc.user, pc.principals, pc.stamp));
  }

  /* ---------------------------------------------------------------- which way a list was served */

  /** The lookup began for this user and found this entry in the cache. */
  predicate Began(states: seq<State>, steps: seq<Step>, h: nat, op: Op, user: User, entry: Option<Entry>) {
    && h < |steps| && h < |states| && steps[h] == Look(op, user)
    && entry == if user in states[h].cache then Some(states[h].cache[user]) else None
  }

  /** Its call of the API failed. */
  predicate FailedAt(steps: seq<Step>, j: nat, op: Op) {
    j < |steps| && steps[j] == ApiFails(op)
  }

  /** Its call was answered with this list at this time. */
  predicate AnsweredAt(states: seq<State>, steps: seq<Step>, i: nat, op: Op, principals: seq<string>, at: int) {
    i < |steps| && i < |states| && steps[i] == ApiAnswers(op, principals) && states[i].now == at
  }

  /** It decided at this time, by the freshness limit or, after a failure, by the TTL. */
  predicate DecidedAt(states: seq<State>, steps: seq<Step>, i: nat, step: Step, at: int) {
    i < |steps| && i < |states| && steps[i] == step && states[i].now == at
  }

  /** How a lookup got where it stands. */
  ghost predicate History(states: seq<State>, steps: seq<Step>, ttl: int, n: nat, op: Op, pc: Pc) {
    match pc
    case Looked(u, e) => exists h: nat :: h < n && Began(states, steps, h, op, u, e)
    case Calling(u, e) => exists h: nat :: h < n && Began(states, steps, h, op, u, e)
    case ApiFailed(u, e) =>
      (exists h: nat :: h < n && Began(states, steps, h, op, u, e)) && exists j: nat :: j < n && FailedAt(steps, j, op)
    case Stored(u, ps, stamp) =>
      (exists h: nat, e :: h < n && Began(states, steps, h, op, u, e))
      && exists i: nat :: i < n && AnsweredAt(states, steps, i, op, ps, stamp)
    case Writing(u, ps, stamp, _) =>
      (exists h: nat, e :: h < n && Began(states, steps, h, op, u, e))
      && exists i: nat :: i < n && AnsweredAt(states, steps, i, op, ps, stamp)
    case Served(u, ps, stamp, at) => ServedBy(states, steps, ttl, n, op, pc)
    case Denied(u) =>
      && (exists j: nat :: j < n && FailedAt(steps, j, op))
      && exists h: nat, e, i: nat, now :: h < n && i < n && Began(states, steps, h, op, u, e)
                                && DecidedAt(states, steps, i, CheckTTL(op), now) && !Young(e, now, ttl)
  }

  /**
   A list is served because the API just answered this very lookup with it, because the entry found at
   the start was younger than minFresh, or because the API failed and it was younger than the TTL.
   */
  ghost predicate ServedBy(states: seq<State>, steps: seq<Step>, ttl: int, n: nat, op: Op, pc: Pc)
    requires pc.Served?
  {
    && (exists h: nat, e :: h < n && Began(states, steps, h, op, pc.user, e))
    && (|| (exists i: nat :: i < n && AnsweredAt(states, steps, i, op, pc.principals, pc.stamp)
                        && pc.decidedAt == pc.stamp)
        || (exists h: nat, i: nat :: h < n && i < n
              && Began(states, steps, h, op, pc.user, Some(Entry(pc.principals, pc.stamp)))
              && DecidedAt(states, steps, i, CheckFresh(op), pc.decidedAt)
              && pc.decidedAt - pc.stamp < MIN_FRESH)
        || ((exists j: nat :: j < n && FailedAt(steps, j, op))
            && exists h: nat, i: nat :: h < n && i < n
                 && Began(states, steps, h, op, pc.user, Some(Entry(pc.principals, pc.stamp)))
                 && DecidedAt(states, steps, i, CheckTTL(op), pc.decidedAt)
                 && pc.decidedAt - pc.stamp < ttl))
  }

  /** The step of a lookup adds to its history. */
  lemma HistoryAdvances(states: seq<State>, steps: seq<Step>, ttl: int, n: nat, op: Op)
    requires IsRun(states, steps, ttl) && n < |steps| && op in states[n + 1].pcs
    requires op in states[n].pcs ==> History(states, steps, ttl, n, op, states[n].pcs[op])
    ensures History(states, steps, ttl, n + 1, op, states[n + 1].pcs[op])
  {
    assert StepAt(states, steps, ttl, n);
    var s, step := states[n], steps[n];
    match step
    case Tick(_) =>
    case Look(o, user) =>
      if o == op {
        assert Began(states, steps, n, op, user, if user in s.cache then Some(s.cache[user]) else None);
      }
    case CheckFresh(o) =>
      if o == op { assert DecidedAt(states, steps, n, step, s.now); }
    case ApiAnswers(o, principals) =>
      if o == op { assert AnsweredAt(states, steps, n, op, principals, s.now); }
    case ApiFails(o) =>
      if o == op { assert FailedAt(steps, n, op); }
    case CheckTTL(o) =>
      if o == op { assert DecidedAt(states, steps, n, step, s.now); }
    case Snapshot(_) =>
    case Write(_, _) =>
    case Restart(_) =>
  }

  /** Every lookup of every run got where it stands in one of these ways. */
  lemma {:induction false} EveryLookupHasHistory(states: seq<State>, steps: seq<Step>, ttl: int, n: nat, op: Op)
    requires IsRun(states, steps, ttl) && n < |states| && op in states[n].pcs
    ensures History(states, steps, ttl, n, op, states[n].pcs[op])
  {
    assert n > 0;
    if op in states[n - 1].pcs {
      EveryLookupHasHistory(states, steps, ttl, n - 1, op);
    }
    HistoryAdvances(states, steps, ttl, n - 1, op);
  }

  /* ---------------------------------------------------------------- sequential lookups */

  /** One lookup: when it read the cache, when the API answered or failed, and what it said. */
  datatype Lookup = Lookup(user: User, readAt: int, answeredAt: int, api: Option<seq<string>>)

  predicate InOrder(run: seq<Lookup>) {
    && (forall i :: 0 <= i < |run| ==> run[i].readAt <= run[i].answeredAt)
    && (forall i, j :: 0 <= i < j < |run| ==> run[i].answeredAt <= run[j].readAt)
  }

  predicate IsFresh(cache: Cache, l: Lookup) {
    l.user in cache && l.readAt - cache[l.user].fetchedAt < MIN_FRESH
  }

  function CacheAfter(cache: Cache, l: Lookup): Cache {
    if IsFresh(cache, l) || l.api.None? then cache else cache[l.user := Entry(l.api.value, l.answeredAt)]
  }

  predicate Fails(cache: Cache, l: Lookup, ttl: int) {
    && !IsFresh(cache, l) && l.api.None?
    && !(l.user in cache && l.answeredAt - cache[l.user].fetchedAt < ttl)
  }

  /** The first steps of a lookup without overlap. */
  function Checked(s: State, op: Op, l: Lookup, ttl: int): State
    requires op !in s.pcs && s.now <= l.readAt
  {
    Next(Next(Next(s, Tick(l.readAt), ttl), Look(op, l.user), ttl), CheckFresh(op), ttl)
  }

  function EntryOf(cache: Cache, user: User): Option<Entry> {
    if user in cache then Some(cache[user]) else None
  }

  lemma ServedOrAsked(s: State, op: Op, l: Lookup, ttl: int)
    requires op !in s.pcs && s.now <= l.readAt
    ensures Checked(s, op, l, ttl)
            == State(l.readAt, s.cache, s.file, s.pcs[op :=
                 if IsFresh(s.cache, l) then ServedFrom(l.user, s.cache[l.user], l.readAt)
                 else Calling(l.user, EntryOf(s.cache, l.user))])
  {
  }

  /** The remaining steps once the API was asked: `writes` says whether the cache file can be written. */
  function Asked(s: State, op: Op, l: Lookup, ttl: int, writes: bool): State
    requires op in s.pcs && s.pcs[op].Calling? && s.now <= l.answeredAt
  {
    var s' := Next(s, Tick(l.answeredAt), ttl);
    if l.api.Some? then
      Next(Next(Next(s', ApiAnswers(op, l.api.value), ttl), Snapshot(op), ttl), Write(op, writes), ttl)
    else Next(Next(s', ApiFails(op), ttl), CheckTTL(op), ttl)
  }

  lemma AnsweredOrFailed(s: State, op: Op, l: Lookup, ttl: int, writes: bool)
    requires op in s.pcs && s.pcs[op] == Calling(l.user, EntryOf(s.cache, l.user)) && s.now <= l.answeredAt
    ensures
      var s' := Asked(s, op, l, ttl, writes);
      if l.api.Some? then
        && s'.cache == s.cache[l.user := Entry(l.api.value, l.answeredAt)]
        && s'.file == (if writes then s'.cache else s.file)
        && s'.pcs[op] == ServedFrom(l.user, s'.cache[l.user], l.answeredAt)
      else
        && s'.cache == s.cache && s'.file == s.file
        && s'.pcs[op] == if Young(EntryOf(s.cache, l.user), l.answeredAt, ttl)
                         then ServedFrom(l.user, s.cache[l.user], l.answeredAt) else Denied(l.user)
  {
  }

  /** The steps of a whole lookup without overlap. */
  function LookedUp(s: State, op: Op, l: Lookup, ttl: int, writes: bool): State
    requires op !in s.pcs && s.now <= l.readAt <= l.answeredAt
  {
    ServedOrAsked(s, op, l, ttl);
    var checked := Checked(s, op, l, ttl);
    if checked.pcs[op].Served? then checked else Asked(checked, op, l, ttl, writes)
  }

  /** They come to a sequential lookup; what was written survives a restart. */
  lemma LoneLookup(s: State, op: Op, l: Lookup, ttl: int, writes: bool)
    requires op !in s.pcs && s.now <= l.readAt <= l.answeredAt
    ensures
      var s' := LookedUp(s, op, l, ttl, writes);
      && s'.cache == CacheAfter(s.cache, l)
      && s'.file == (if !IsFresh(s.cache, l) && l.api.Some? && writes then s'.cache else s.file)
      && s'.pcs[op] == (if Fails(s.cache, l, ttl) then Denied(l.user)
                        else ServedFrom(l.user, s'.cache[l.user],
                                        if IsFresh(s.cache, l) then l.readAt else l.answeredAt))
      && Next(s', Restart(true), ttl).cache == s'.file
  {
    ServedOrAsked(s, op, l, ttl);
    if !IsFresh(s.cache, l) {
      AnsweredOrFailed(Checked(s, op, l, ttl), op, l, ttl, writes);
    }
  }

  class Agent {
    const ttl: int
    var cache: Cache
    var file: Cache

    constructor (ttl: int, file: Cache, readable: bool)
      ensures this.ttl == ttl && this.file == file && cache == if readable then file else map[]
    {
      this.ttl, this.file := ttl, file;
      cache := if readable then file else map[];
    }

    /** `api` is what the API would answer; it is not asked when the cache is fresh. */
    method Principals(l: Lookup, writes: bool) returns (r: Option<seq<string>>)
      modifies this
      ensures cache == CacheAfter(old(cache), l)
      ensures cache == old(cache) || (l.api.Some? && cache == old(cache)[l.user := Entry(l.api.value, l.answeredAt)])
      ensures r.None? <==> Fails(old(cache), l, ttl)
      ensures r.Some? ==> if IsFresh(old(cache), l) || l.api.None?
                          then l.user in cache && r.value == cache[l.user].principals
                          else r == l.api
      ensures file == if !IsFresh(old(cache), l) && l.api.Some? && writes then cache else old(file)
    {
      var entry := if l.user in cache then Some(cache[l.user]) else None;
      if Young(entry, l.readAt, MIN_FRESH) {
        return Some(entry.value.principals);
      }
      if l.api.Some? {
        cache := cache[l.user := Entry(l.api.value, l.answeredAt)];
        if writes {
          file := cache;
        }
        return l.api;
      }
      if Young(entry, l.answeredAt, ttl) {
        return Some(entry.value.principals);
      }
      return None;
    }
  }

  function CacheOver(cache: Cache, run: seq<Lookup>): Cache {
    if run == [] then cache else CacheAfter(CacheOver(cache, run[..|run| - 1]), run[|run| - 1])
  }

  /** The API was asked by lookup `i` and answered. */
  predicate Answered(cache: Cache, run: seq<Lookup>, i: nat)
    requires i < |run|
  {
    run[i].api.Some? && !IsFresh(CacheOver(cache, run[..i]), run[i])
  }

  /** An answer for the user, loaded at the start or given since, that is younger than its limit. */
  ghost predicate HasUsableAnswer(cache: Cache, run: seq<Lookup>, l: Lookup, ttl: int) {
    || (l.user in cache && Usable(cache[l.user].fetchedAt, l, ttl))
    || exists i: nat :: i < |run| && run[i].user == l.user && Answered(cache, run, i)
                        && Usable(run[i].answeredAt, l, ttl)
  }

  predicate Usable(stamp: int, l: Lookup, ttl: int) {
    l.readAt - stamp < MIN_FRESH || l.answeredAt - stamp < ttl
  }

  /** The cache always holds the youngest answer. */
  ghost predicate HoldsYoungest(start: Cache, run: seq<Lookup>, user: User) {
    var cache := CacheOver(start, run);
    && (user in start ==> user in cache && start[user].fetchedAt <= cache[user].fetchedAt)
    && (forall i: nat :: i < |run| && run[i].user == user && Answered(start, run, i) ==>
          user in cache && run[i].answeredAt <= cache[user].fetchedAt)
    && (user in cache ==>
          || (user in start && start[user].fetchedAt == cache[user].fetchedAt)
          || exists i: nat :: i < |run| && run[i].user == user && Answered(start, run, i)
                              && run[i].answeredAt == cache[user].fetchedAt)
  }

  ghost predicate StartsBefore(start: Cache, run: seq<Lookup>) {
    forall u, i :: u in start && 0 <= i < |run| ==> start[u].fetchedAt <= run[i].readAt
  }

  lemma AnsweredPrefix(start: Cache, run: seq<Lookup>, l: Lookup)
    ensures forall i: nat :: i < |run| ==>
              (run + [l])[i] == run[i] && (Answered(start, run + [l], i) <==> Answered(start, run, i))
    ensures Answered(start, run + [l], |run|) <==> l.api.Some? && !IsFresh(CacheOver(start, run), l)
    ensures CacheOver(start, run + [l]) == CacheAfter(CacheOver(start, run), l)
  {
    var longer := run + [l];
    assert longer[..|run|] == run;
    forall i: nat | i < |run|
      ensures longer[i] == run[i] && (Answered(start, longer, i) <==> Answered(start, run, i))
    {
      assert longer[..i] == run[..i];
    }
  }

  /** An answer of the newest lookup replaces the entry, and it is the youngest. */
  lemma AnswerIsYoungest(start: Cache, run: seq<Lookup>, l: Lookup)
    requires HoldsYoungest(start, run, l.user)
    requires l.api.Some? && !IsFresh(CacheOver(start, run), l)
    requires l.user in CacheOver(start, run) ==> CacheOver(start, run)[l.user].fetchedAt <= l.answeredAt
    ensures HoldsYoungest(start, run + [l], l.user)
  {
    AnsweredPrefix(start, run, l);
    var longer := run + [l];
    assert longer[|run|] == l && Answered(start, longer, |run|);
    assert CacheOver(start, longer)[l.user].fetchedAt == l.answeredAt;
  }

  /** Any other lookup leaves the user's entry and the user's answers as they were. */
  lemma OtherKeepsYoungest(start: Cache, run: seq<Lookup>, l: Lookup, user: User)
    requires HoldsYoungest(start, run, user)
    requires l.user != user || l.api.None? || IsFresh(CacheOver(start, run), l)
    ensures HoldsYoungest(start, run + [l], user)
  {
    AnsweredPrefix(start, run, l);
    var c := CacheOver(start, run);
    if user in c && !(user in start && start[user].fetchedAt == c[user].fetchedAt) {
      var i: nat :| i < |run| && run[i].user == user && Answered(start, run, i)
                    && run[i].answeredAt == c[user].fetchedAt;
      assert (run + [l])[i].user == user && Answered(start, run + [l], i);
    }
  }

  /** Nothing in the cache is newer than the next lookup. */
  lemma {:induction false} EntriesAreOlder(start: Cache, run: seq<Lookup>, n: nat, user: User)
    requires InOrder(run) && StartsBefore(start, run) && n < |run|
    ensures user in CacheOver(start, run[..n]) ==> CacheOver(start, run[..n])[user].fetchedAt <= run[n].readAt
  {
    if n > 0 {
      EntriesAreOlder(start, run, n - 1, user);
      assert run[..n][..n - 1] == run[..n - 1] && run[..n][n - 1] == run[n - 1];
      assert run[n - 1].readAt <= run[n - 1].answeredAt <= run[n].readAt;
    }
  }

  lemma {:induction false} CacheHoldsYoungest(start: Cache, run: seq<Lookup>, user: User)
    requires InOrder(run) && StartsBefore(start, run)
    ensures HoldsYoungest(start, run, user)
  {
    if run != [] {
      var n := |run| - 1;
      var before, l := run[..n], run[n];
      assert run == before + [l];
      CacheHoldsYoungest(start, before, user);
      var c := CacheOver(start, before);
      EntriesAreOlder(start, run, n, user);
      if l.user == user && l.api.Some? && !IsFresh(c, l) {
        AnswerIsYoungest(start, before, l);
      } else {
        OtherKeepsYoungest(start, before, l, user);
      }
    }
  }

  /**
   In a sequential run without restart a lookup fails exactly when the API fails and no answer for the
   user is young enough, that is, younger than minFresh when the cache was read or younger than CacheTTL
   when the API failed.
   */
  lemma LookupFailsExactly(start: Cache, run: seq<Lookup>, l: Lookup, ttl: int)
    requires InOrder(run + [l]) && StartsBefore(start, run + [l])
    ensures Fails(CacheOver(start, run), l, ttl) <==> l.api.None? && !HasUsableAnswer(start, run, l, ttl)
  {
    assert forall i :: 0 <= i < |run| ==> (run + [l])[i] == run[i];
    CacheHoldsYoungest(start, run, l.user);
    var cache := CacheOver(start, run);
    if l.user in cache && Usable(cache[l.user].fetchedAt, l, ttl) {
      assert HasUsableAnswer(start, run, l, ttl);
    }
    if HasUsableAnswer(start, run, l, ttl) {
      assert l.user in cache && Usable(cache[l.user].fetchedAt, l, ttl);
    }
  }
}
