/**
 The token-bucket limiter of internal/api/ratelimit.go.

 Every client key has two lazily refilled budgets. Times are minutes, tokens are reals, and a clock
 reading is an argument of the call that takes it. The specification part describes one call as a
 function of the table of clients (Next, Granted); a run is a sequence of calls, each with the set
 of keys that `evict` dropped to make room. The class at the end updates the table in place and is
 proved to perform exactly such calls.
 */
module RateLimiter {
  import opened Common

  type Key = string

  /** A bucket that was never refilled has no `last`; its first refill fills it up. */
  datatype Bucket = Bucket(tokens: real, last: Option<real>)

  datatype Client = Client(requests: Bucket, failures: Bucket, lastSeen: real)

  datatype Budget = Budget(perMinute: real, burst: real)

  datatype Config = Config(requests: Budget, failures: Budget)

  type Clients = map<Key, Client>

  const MAX_CLIENTS: nat := 65536
  const CLIENT_IDLE_TTL := 5.0

  const DEFAULTS := Config(Budget(60.0, 20.0), Budget(10.0, 10.0))

  predicate ValidConfig(cfg: Config) {
    && cfg.requests.perMinute > 0.0 && cfg.requests.burst > 0.0
    && cfg.failures.perMinute > 0.0 && cfg.failures.burst > 0.0
  }

  /** What a bucket holds when it is refilled at time `now`. */
  function Level(b: Bucket, now: real, q: Budget): real {
    if b.last.None? then q.burst
    else
      var filled := b.tokens + (now - b.last.value) * q.perMinute;
      if filled < q.burst then filled else q.burst
  }

  function Refill(b: Bucket, now: real, q: Budget): Bucket {
    Bucket(Level(b, now, q), Some(now))
  }

  predicate Covered(b: Bucket) {
    b.tokens >= 1.0
  }

  function Take(b: Bucket): Bucket {
    if Covered(b) then b.(tokens := b.tokens - 1.0) else b
  }

  function Fresh(now: real): Client {
    Client(Bucket(0.0, None), Bucket(0.0, None), now)
  }

  datatype Event = Allow(key: Key, now: real) | RecordFailure(key: Key, now: real)

  /** A call together with the keys evicted while it made room for a new client. */
  datatype Call = Call(event: Event, dropped: set<Key>)

  /** The table after `client` returned: an unknown key gets a fresh entry. */
  function Lookup(s: Clients, c: Call): Clients {
    var key := c.event.key;
    if key in s then s else (s - c.dropped)[key := Fresh(c.event.now)]
  }

  /** Whether the call is granted: an admitted request, or a failure that found a token. */
  predicate Granted(cfg: Config, s: Clients, c: Call) {
    var e := c.event;
    var cl := Lookup(s, c)[e.key];
    && Covered(Refill(cl.failures, e.now, cfg.failures))
    && (e.Allow? ==> Covered(Refill(cl.requests, e.now, cfg.requests)))
  }

  function Next(cfg: Config, s: Clients, c: Call): Clients {
    var e := c.event;
    var cl := Lookup(s, c)[e.key];
    var failures := Refill(cl.failures, e.now, cfg.failures);
    var cl' :=
      match e
      case Allow(_, now) =>
        var requests := Refill(cl.requests, now, cfg.requests);
        Client(if Covered(failures) then Take(requests) else requests, failures, now)
      case RecordFailure(_, _) =>
        cl.(failures := Take(failures));
    Lookup(s, c)[e.key := cl']
  }

  /** The table after a run that starts with no clients. */
  function After(cfg: Config, run: seq<Call>): Clients {
    if run == [] then map[] else Next(cfg, After(cfg, run[..|run| - 1]), run[|run| - 1])
  }

  predicate GrantedAt(cfg: Config, run: seq<Call>, i: nat)
    requires i < |run|
  {
    Granted(cfg, After(cfg, run[..i]), run[i])
  }

  /* ---------------------------------------------------------------- window bounds */

  /** The two budgets of a key, so that one argument serves both. */
  datatype Kind = Requests | Failures

  function BucketOf(cl: Client, kind: Kind): Bucket {
    if kind.Requests? then cl.requests else cl.failures
  }

  function BudgetOf(cfg: Config, kind: Kind): Budget {
    if kind.Requests? then cfg.requests else cfg.failures
  }

  /** The call withdraws a token of this kind when it is granted. */
  predicate Debits(e: Event, kind: Kind) {
    if kind.Requests? then e.Allow? else e.RecordFailure?
  }

  predicate InWindow(e: Event, key: Key, from: real, to: real) {
    e.key == key && from <= e.now <= to
  }

  predicate Withdraws(cfg: Config, s: Clients, c: Call, kind: Kind, key: Key, from: real, to: real) {
    InWindow(c.event, key, from, to) && Debits(c.event, kind) && Granted(cfg, s, c)
  }

  /** Tokens of a kind withdrawn for `key` at clock readings in [from, to]. */
  function Withdrawn(cfg: Config, run: seq<Call>, kind: Kind, key: Key, from: real, to: real): nat {
    if run == [] then 0
    else
      var n := |run| - 1;
      Withdrawn(cfg, run[..n], kind, key, from, to)
      + (if Withdraws(cfg, After(cfg, run[..n]), run[n], kind, key, from, to) then 1 else 0)
  }

  lemma AfterOneMore(cfg: Config, run: seq<Call>, n: nat)
    requires n < |run|
    ensures After(cfg, run[..n + 1]) == Next(cfg, After(cfg, run[..n]), run[n])
  {
    assert run[..n + 1][..n] == run[..n];
  }

  lemma WithdrawnOneMore(cfg: Config, run: seq<Call>, kind: Kind, key: Key, from: real, to: real, n: nat)
    requires n < |run|
    ensures
      var e := run[n].event;
      Withdrawn(cfg, run[..n + 1], kind, key, from, to)
      == Withdrawn(cfg, run[..n], kind, key, from, to)
         + (if InWindow(e, key, from, to) && Debits(e, kind) && GrantedAt(cfg, run, n) then 1 else 0)
  {
    assert run[..n + 1][..n] == run[..n];
  }

  predicate NeverEvicted(run: seq<Call>, key: Key) {
    forall i :: 0 <= i < |run| ==> key !in run[i].dropped
  }

  /** `n` withdrawals are within the budget of a window of the given length. */
  predicate Within(n: nat, q: Budget, length: real) {
    n as real <= q.burst + q.perMinute * length
  }

  lemma NoneIsWithin(q: Budget, length: real)
    requires q.perMinute > 0.0 && q.burst > 0.0 && length >= 0.0
    ensures Within(0, q, length)
  {
    assert 0.0 <= q.perMinute * length;
  }

  /** What one call does to one bucket of one key. */
  lemma BucketStep(cfg: Config, s: Clients, c: Call, kind: Kind, key: Key)
    requires key !in c.dropped
    ensures
      var e := c.event;
      var s' := Next(cfg, s, c);
      var b := BucketOf(Lookup(s, c)[e.key], kind);
      if e.key == key && (kind.Failures? || e.Allow?) then
        && key in s'
        && BucketOf(s'[key], kind).last == Some(e.now)
        && BucketOf(s'[key], kind).tokens
           == Level(b, e.now, BudgetOf(cfg, kind)) - (if Debits(e, kind) && Granted(cfg, s, c) then 1.0 else 0.0)
        && (Debits(e, kind) && Granted(cfg, s, c) ==> BucketOf(s'[key], kind).tokens >= 0.0)
        && (key in s ==> b == BucketOf(s[key], kind))
      else
        key in s ==> key in s' && BucketOf(s'[key], kind) == BucketOf(s[key], kind)
  {
  }

  /**
   The potential of a bucket with respect to the start of a window. Once a token was withdrawn in
   the window, the withdrawals plus `tokens - perMinute * last` are at most what a full bucket has
   at the start of the window.
   */
  predicate Potential(n: nat, b: Bucket, q: Budget, from: real) {
    && b.last.Some?
    && n as real + b.tokens - q.perMinute * b.last.value <= q.burst - q.perMinute * from
  }

  /** A refill never raises the potential, whichever way the clock went. */
  lemma RefillKeepsPotential(n: nat, b: Bucket, now: real, q: Budget, from: real)
    requires Potential(n, b, q, from)
    ensures Potential(n, Refill(b, now, q), q, from)
  {
    assert (now - b.last.value) * q.perMinute == q.perMinute * now - q.perMinute * b.last.value;
  }

  /** A withdrawal inside the window keeps the potential and stays within the budget. */
  lemma WithdrawalKeepsPotential(n: nat, b: Bucket, now: real, q: Budget, from: real, to: real)
    requires q.perMinute > 0.0 && from <= now <= to
    requires n > 0 ==> Potential(n, b, q, from)
    requires Level(b, now, q) >= 1.0
    ensures Potential(n + 1, Bucket(Level(b, now, q) - 1.0, Some(now)), q, from)
    ensures Within(n + 1, q, to - from)
  {
    if n > 0 {
      RefillKeepsPotential(n, b, now, q, from);
    }
    assert 0.0 <= q.perMinute * (now - from) == q.perMinute * now - q.perMinute * from;
    assert 0.0 <= q.perMinute * (to - now) == q.perMinute * (to - from) - q.perMinute * (now - from);
  }

  ghost predicate PotentialBound(cfg: Config, s: Clients, n: nat, kind: Kind, key: Key, from: real, to: real) {
    n > 0 ==>
      && key in s
      && Potential(n, BucketOf(s[key], kind), BudgetOf(cfg, kind), from)
      && Within(n, BudgetOf(cfg, kind), to - from)
  }

  lemma PotentialStep(cfg: Config, s: Clients, c: Call, n: nat, kind: Kind, key: Key, from: real, to: real)
    requires ValidConfig(cfg) && key !in c.dropped
    requires PotentialBound(cfg, s, n, kind, key, from, to)
    ensures PotentialBound(cfg, Next(cfg, s, c), if Withdraws(cfg, s, c, kind, key, from, to) then n + 1 else n,
                           kind, key, from, to)
  {
    var e, q := c.event, BudgetOf(cfg, kind);
    BucketStep(cfg, s, c, kind, key);
    if e.key == key && (kind.Failures? || e.Allow?) {
      var b := BucketOf(Lookup(s, c)[key], kind);
      if Withdraws(cfg, s, c, kind, key, from, to) {
        WithdrawalKeepsPotential(n, b, e.now, q, from, to);
      } else if n > 0 {
        RefillKeepsPotential(n, b, e.now, q, from);
      }
    }
  }

  lemma {:induction false} WithdrawnPotential(
    cfg: Config, run: seq<Call>, kind: Kind, key: Key, from: real, to: real)
    requires ValidConfig(cfg) && NeverEvicted(run, key)
    ensures PotentialBound(cfg, After(cfg, run), Withdrawn(cfg, run, kind, key, from, to), kind, key, from, to)
  {
    if run != [] {
      var n := |run| - 1;
      WithdrawnPotential(cfg, run[..n], kind, key, from, to);
      PotentialStep(cfg, After(cfg, run[..n]), run[n], Withdrawn(cfg, run[..n], kind, key, from, to),
                    kind, key, from, to);
    }
  }

  /**
   Main bound: in every window the tokens withdrawn for a key that is not evicted number at most
   burst + perMinute * (length of the window). No assumption is made on the order of the clock
   readings, so calls that read the clock before they wait for the mutex are covered.
   */
  lemma WithdrawnWithinBudget(
    cfg: Config, run: seq<Call>, kind: Kind, key: Key, from: real, to: real)
    requires ValidConfig(cfg) && NeverEvicted(run, key) && from <= to
    ensures Within(Withdrawn(cfg, run, kind, key, from, to), BudgetOf(cfg, kind), to - from)
  {
    WithdrawnPotential(cfg, run, kind, key, from, to);
    NoneIsWithin(BudgetOf(cfg, kind), to - from);
  }

  /** The calls of a kind in a window, whether granted or not. */
  function Attempts(run: seq<Call>, kind: Kind, key: Key, from: real, to: real): nat {
    if run == [] then 0
    else
      var n := |run| - 1;
      Attempts(run[..n], kind, key, from, to)
      + (if InWindow(run[n].event, key, from, to) && Debits(run[n].event, kind) then 1 else 0)
  }

  /** The clock readings of this key's calls arrive in order, whatever those of other keys do. */
  predicate OrderedReadings(run: seq<Call>, key: Key) {
    forall i, j :: 0 <= i < j < |run| && run[i].event.key == key && run[j].event.key == key ==>
      run[i].event.now <= run[j].event.now
  }

  /** `i` is the last call for the key among the first `n`. */
  predicate LastFor(run: seq<Call>, key: Key, i: nat, n: nat) {
    i < n <= |run| && run[i].event.key == key && forall j :: i < j < n ==> run[j].event.key != key
  }

  /** The rejected response of an admitted request is recorded before the key's next `allow`. */
  ghost predicate FailuresRecordedAtOnce(cfg: Config, run: seq<Call>, key: Key) {
    forall n :: 0 <= n < |run| && run[n].event.key == key && run[n].event.RecordFailure? ==>
      exists i: nat :: LastFor(run, key, i, n) && run[i].event.Allow? && GrantedAt(cfg, run, i)
  }

  lemma {:induction false} UntouchedKeyKeepsEntry(cfg: Config, run: seq<Call>, key: Key, i: nat, n: nat)
    requires NeverEvicted(run, key) && i <= n <= |run|
    requires forall j :: i <= j < n ==> run[j].event.key != key
    requires key in After(cfg, run[..i])
    ensures key in After(cfg, run[..n]) && After(cfg, run[..n])[key] == After(cfg, run[..i])[key]
    decreases n - i
  {
    if i < n {
      UntouchedKeyKeepsEntry(cfg, run, key, i, n - 1);
      assert run[..n][..n - 1] == run[..n - 1];
      assert key !in run[n - 1].dropped;
    }
  }

  /** `left` tokens are one or more after a refill of `elapsed` minutes, which is negative if the clock went back. */
  predicate StillCovered(left: real, elapsed: real, perMinute: real) {
    left + elapsed * perMinute >= 1.0
  }

  lemma CoveredStaysCovered(left: real, elapsed: real, perMinute: real)
    requires left >= 1.0 && elapsed >= 0.0 && perMinute > 0.0
    ensures StillCovered(left, elapsed, perMinute)
  {
    assert 0.0 <= elapsed * perMinute;
  }

  lemma AdmittedLeavesFailureCover(cfg: Config, s: Clients, c: Call)
    requires c.event.Allow? && Granted(cfg, s, c)
    ensures
      var b := Next(cfg, s, c)[c.event.key].failures;
      b.last == Some(c.event.now) && 1.0 <= b.tokens <= cfg.failures.burst
  {
  }

  lemma KnownFailureExactly(cfg: Config, s: Clients, c: Call, left: real, elapsed: real)
    requires c.event.RecordFailure? && c.event.key in s
    requires
      var b := s[c.event.key].failures;
      && b.last.Some? && elapsed == c.event.now - b.last.value
      && b.tokens == left && 1.0 <= left <= cfg.failures.burst
    ensures Granted(cfg, s, c) <==> StillCovered(left, elapsed, cfg.failures.perMinute)
  {
  }

  /** After an admitted request the failure bucket is covered and freshly refilled. */
  lemma AdmittedEntry(cfg: Config, run: seq<Call>, key: Key, i: nat)
    requires i < |run| && run[i].event.key == key && run[i].event.Allow? && GrantedAt(cfg, run, i)
    ensures key in After(cfg, run[..i + 1])
    ensures
      var b := After(cfg, run[..i + 1])[key].failures;
      b.last == Some(run[i].event.now) && 1.0 <= b.tokens <= cfg.failures.burst
  {
    assert run[..i + 1][..i] == run[..i];
    assert After(cfg, run[..i + 1]) == Next(cfg, After(cfg, run[..i]), run[i]);
    AdmittedLeavesFailureCover(cfg, After(cfg, run[..i]), run[i]);
  }

  lemma EntryWhenRecorded(cfg: Config, run: seq<Call>, key: Key, i: nat, n: nat)
    requires NeverEvicted(run, key) && LastFor(run, key, i, n) && key in After(cfg, run[..i + 1])
    ensures key in After(cfg, run[..n]) && After(cfg, run[..n])[key] == After(cfg, run[..i + 1])[key]
  {
    UntouchedKeyKeepsEntry(cfg, run, key, i + 1, n);
  }

  /**
   Exactly when the failure of an admitted request finds its token, if its `allow` is the key's last call:
   however the readings lie, the tokens left then must not be outrun by a clock reading that is earlier.
   */
  lemma RecordedFailureIsDebitedExactly(cfg: Config, run: seq<Call>, key: Key, i: nat, n: nat)
    requires NeverEvicted(run, key)
    requires n < |run| && run[n].event.key == key && run[n].event.RecordFailure?
    requires LastFor(run, key, i, n) && run[i].event.Allow? && GrantedAt(cfg, run, i)
    ensures key in After(cfg, run[..i + 1])
    ensures
      var left := After(cfg, run[..i + 1])[key].failures.tokens;
      left >= 1.0
      && (GrantedAt(cfg, run, n)
          <==> StillCovered(left, run[n].event.now - run[i].event.now, cfg.failures.perMinute))
  {
    AdmittedEntry(cfg, run, key, i);
    EntryWhenRecorded(cfg, run, key, i, n);
    var left := After(cfg, run[..i + 1])[key].failures.tokens;
    KnownFailureExactly(cfg, After(cfg, run[..n]), run[n], left, run[n].event.now - run[i].event.now);
  }

  lemma DebitedIfInOrder(cfg: Config, run: seq<Call>, key: Key, i: nat, n: nat)
    requires ValidConfig(cfg) && NeverEvicted(run, key)
    requires n < |run| && run[n].event.key == key && run[n].event.RecordFailure?
    requires LastFor(run, key, i, n) && run[i].event.Allow? && GrantedAt(cfg, run, i)
    requires run[i].event.now <= run[n].event.now
    ensures GrantedAt(cfg, run, n)
  {
    RecordedFailureIsDebitedExactly(cfg, run, key, i, n);
    var left, elapsed := After(cfg, run[..i + 1])[key].failures.tokens, run[n].event.now - run[i].event.now;
    CoveredStaysCovered(left, elapsed, cfg.failures.perMinute);
  }

  /** In particular: while the key's clock readings do not run backwards it always finds one. */
  lemma {:induction false} RecordedFailureIsDebited(cfg: Config, run: seq<Call>, key: Key, n: nat)
    requires ValidConfig(cfg) && NeverEvicted(run, key) && OrderedReadings(run, key)
    requires FailuresRecordedAtOnce(cfg, run, key)
    requires n < |run| && run[n].event.key == key && run[n].event.RecordFailure?
    ensures GrantedAt(cfg, run, n)
  {
    var i: nat :| LastFor(run, key, i, n) && run[i].event.Allow? && GrantedAt(cfg, run, i);
    DebitedIfInOrder(cfg, run, key, i, n);
  }

  lemma {:induction false} FailuresAreDebited(cfg: Config, run: seq<Call>, key: Key, from: real, to: real, n: nat)
    requires ValidConfig(cfg) && NeverEvicted(run, key) && OrderedReadings(run, key)
    requires FailuresRecordedAtOnce(cfg, run, key) && n <= |run|
    ensures Attempts(run[..n], Failures, key, from, to) == Withdrawn(cfg, run[..n], Failures, key, from, to)
  {
    if n > 0 {
      FailuresAreDebited(cfg, run, key, from, to, n - 1);
      assert run[..n][..n - 1] == run[..n - 1];
      if run[n - 1].event.key == key && run[n - 1].event.RecordFailure? {
        RecordedFailureIsDebited(cfg, run, key, n - 1);
      }
    }
  }

  /** Rejected attempts in a window, under the conditions the handler chain gives for one client. */
  lemma {:induction false} FailuresWithinBudget(cfg: Config, run: seq<Call>, key: Key, from: real, to: real)
    requires ValidConfig(cfg) && NeverEvicted(run, key) && OrderedReadings(run, key) && from <= to
    requires FailuresRecordedAtOnce(cfg, run, key)
    ensures Within(Attempts(run, Failures, key, from, to), cfg.failures, to - from)
  {
    assert run[..|run|] == run;
    FailuresAreDebited(cfg, run, key, from, to, |run|);
    WithdrawnWithinBudget(cfg, run, Failures, key, from, to);
  }

  const ONE_FAILURE := Config(Budget(60.0, 20.0), Budget(10.0, 1.0))

  /**
   The order matters. Two requests overlap: the second reads the clock after the first has read it for
   its failure, but gets the mutex before. The failure is recorded at an earlier time than the last
   refill, and finds no token.
   */
  lemma LateReadingEscapes() returns (run: seq<Call>)
    ensures NeverEvicted(run, "k") && FailuresRecordedAtOnce(ONE_FAILURE, run, "k")
    ensures run == [Call(Allow("k", 0.0), {}), Call(Allow("k", 1.0), {}), Call(RecordFailure("k", 0.5), {})]
    ensures GrantedAt(ONE_FAILURE, run, 0) && GrantedAt(ONE_FAILURE, run, 1) && !GrantedAt(ONE_FAILURE, run, 2)
  {
    run := [Call(Allow("k", 0.0), {}), Call(Allow("k", 1.0), {}), Call(RecordFailure("k", 0.5), {})];
    assert run[..0] == [] && run[..1][..0] == [] && run[..2][..1] == run[..1];
    var first, second := After(ONE_FAILURE, run[..1]), After(ONE_FAILURE, run[..2]);
    assert first == Next(ONE_FAILURE, map[], run[0]) && second == Next(ONE_FAILURE, first, run[1]);
    assert first["k"] == Client(Bucket(19.0, Some(0.0)), Bucket(1.0, Some(0.0)), 0.0);
    assert second["k"].failures == Bucket(1.0, Some(1.0));
    assert GrantedAt(ONE_FAILURE, run, 0) && GrantedAt(ONE_FAILURE, run, 1);
    assert LastFor(run, "k", 1, 2);
    KnownFailureExactly(ONE_FAILURE, second, run[2], 1.0, -0.5);
  }

  /* ---------------------------------------------------------------- the limiter */

  function Idle(s: Clients, now: real): set<Key> {
    set k | k in s && now - s[k].lastSeen > CLIENT_IDLE_TTL
  }

  /**
   The keys `evict` may drop when a call for `key` finds the table `s`: none unless the key is
   unknown and the table is full; then all idle ones, and arbitrary further ones only as long as
   that leaves no room.
   */
  predicate LegalDrop(s: Clients, key: Key, dropped: set<Key>, now: real) {
    if key in s || |s| < MAX_CLIENTS then dropped == {}
    else
      && Idle(s, now) <= dropped <= s.Keys
      && if |s| - |Idle(s, now)| < MAX_CLIENTS then dropped == Idle(s, now)
         else |s| - |dropped| == MAX_CLIENTS - 1
  }

  lemma DropCardinality(s: Clients, dropped: set<Key>)
    requires dropped <= s.Keys
    ensures |s - dropped| == |s| - |dropped|
  {
    assert (s - dropped).Keys == s.Keys - dropped;
    assert |s.Keys| == |s.Keys - dropped| + |dropped|;
  }

  lemma EvictedInTwoSteps(s: Clients, key: Key, more: set<Key>, now: real)
    requires |s| >= MAX_CLIENTS && key !in s
    requires
      var kept := s - Idle(s, now);
      && more <= kept.Keys
      && if |kept| < MAX_CLIENTS then more == {} else |more| == |kept| - MAX_CLIENTS + 1
    ensures LegalDrop(s, key, Idle(s, now) + more, now)
    ensures s - Idle(s, now) - more == s - (Idle(s, now) + more)
    ensures |s - (Idle(s, now) + more)| < MAX_CLIENTS
  {
    var idle := Idle(s, now);
    DropCardinality(s, idle);
    assert idle !! more;
    assert |idle + more| == |idle| + |more|;
    DropCardinality(s, idle + more);
    if more == {} {
      assert idle + more == idle;
    }
  }

  /** Rates and bursts that are not positive are replaced by the defaults. */
  function Filled(q: Budget, default_: Budget): Budget {
    Budget(if q.perMinute <= 0.0 then default_.perMinute else q.perMinute,
           if q.burst <= 0.0 then default_.burst else q.burst)
  }

  class Limiter {
    const cfg: Config
    var clients: Clients

    ghost predicate Valid()
      reads this
    {
      ValidConfig(cfg) && |clients| <= MAX_CLIENTS
    }

    constructor (given: Config)
      ensures Valid() && clients == map[]
      ensures cfg == Config(Filled(given.requests, DEFAULTS.requests), Filled(given.failures, DEFAULTS.failures))
    {
      var r, f := given.requests, given.failures;
      if r.perMinute <= 0.0 { r := r.(perMinute := DEFAULTS.requests.perMinute); }
      if r.burst <= 0.0 { r := r.(burst := DEFAULTS.requests.burst); }
      if f.perMinute <= 0.0 { f := f.(perMinute := DEFAULTS.failures.perMinute); }
      if f.burst <= 0.0 { f := f.(burst := DEFAULTS.failures.burst); }
      cfg := Config(r, f);
      clients := map[];
    }

    method DropIdle(now: real)
      modifies this
      ensures clients == old(clients) - Idle(old(clients), now)
    {
      var todo := clients.Keys;
      while todo != {}
        invariant todo <= clients.Keys
        invariant clients == old(clients) - (Idle(old(clients), now) - todo)
        decreases |todo|
      {
        var k :| k in todo;
        if now - clients[k].lastSeen > CLIENT_IDLE_TTL {
          clients := clients - {k};
        }
        todo := todo - {k};
      }
    }

    /** Drops arbitrary entries until there is room for one more. */
    method DropArbitrary() returns (ghost dropped: set<Key>)
      modifies this
      ensures dropped <= old(clients).Keys && clients == old(clients) - dropped
      ensures if |old(clients)| < MAX_CLIENTS then dropped == {}
              else |dropped| == |old(clients)| - MAX_CLIENTS + 1
    {
      dropped := {};
      while |clients| >= MAX_CLIENTS
        invariant dropped <= old(clients).Keys && clients == old(clients) - dropped
        invariant |clients| == |old(clients)| - |dropped|
        invariant |clients| >= MAX_CLIENTS - 1 || dropped == {}
        decreases |clients|
      {
        var k :| k in clients.Keys;
        DropCardinality(clients, {k});
        clients := clients - {k};
        dropped := dropped + {k};
      }
    }

    /** Drops idle entries; if the table is still full, arbitrary ones until there is room. */
    method Evict(key: Key, now: real) returns (ghost dropped: set<Key>)
      requires |clients| >= MAX_CLIENTS && key !in clients
      modifies this
      ensures LegalDrop(old(clients), key, dropped, now)
      ensures clients == old(clients) - dropped && |clients| < MAX_CLIENTS
      ensures forall k :: k in old(clients) && now - old(clients)[k].lastSeen > CLIENT_IDLE_TTL ==> k !in clients
      ensures forall k :: k in old(clients) && k !in clients && now - old(clients)[k].lastSeen <= CLIENT_IDLE_TTL ==>
                |clients| == MAX_CLIENTS - 1
    {
      ghost var s := clients;
      DropIdle(now);
      ghost var more := DropArbitrary();
      dropped := Idle(s, now) + more;
      EvictedInTwoSteps(s, key, more, now);
      DropCardinality(s, dropped);
    }

    /** The entry of a key, created if needed; afterwards the table holds at most MAX_CLIENTS keys. */
    method FindOrAdd(key: Key, now: real) returns (client: Client, ghost dropped: set<Key>)
      requires Valid()
      modifies this
      ensures Valid() && LegalDrop(old(clients), key, dropped, now)
      ensures forall e: Event :: e.key == key && e.now == now ==>
                clients == Lookup(old(clients), Call(e, dropped))
      ensures key in clients && client == clients[key]
    {
      dropped := {};
      if key in clients {
        client := clients[key];
        return;
      }
      if |clients| >= MAX_CLIENTS {
        dropped := Evict(key, now);
      }
      assert clients == old(clients) - dropped;
      client := Fresh(now);
      clients := clients[key := client];
      assert clients.Keys == (old(clients) - dropped).Keys + {key};
    }

    /** Refills both budgets and admits the request if both are covered; only the request budget pays. */
    method Allow(key: Key, now: real) returns (ok: bool, ghost dropped: set<Key>)
      requires Valid()
      modifies this
      ensures Valid() && LegalDrop(old(clients), key, dropped, now)
      ensures ok == Granted(cfg, old(clients), Call(Event.Allow(key, now), dropped))
      ensures clients == Next(cfg, old(clients), Call(Event.Allow(key, now), dropped))
    {
      var c;
      c, dropped := FindOrAdd(key, now);
      ghost var e := Event.Allow(key, now);
      assert clients == Lookup(old(clients), Call(e, dropped));
      c := c.(lastSeen := now,
              requests := Refill(c.requests, now, cfg.requests),
              failures := Refill(c.failures, now, cfg.failures));
      ok := false;
      if c.failures.tokens >= 1.0 {
        ok := c.requests.tokens >= 1.0;
        c := c.(requests := Take(c.requests));
      }
      assert clients[key := c].Keys == clients.Keys;
      clients := clients[key := c];
    }

    method RecordFailure(key: Key, now: real) returns (ghost dropped: set<Key>)
      requires Valid()
      modifies this
      ensures Valid() && LegalDrop(old(clients), key, dropped, now)
      ensures clients == Next(cfg, old(clients), Call(Event.RecordFailure(key, now), dropped))
    {
      var c;
      c, dropped := FindOrAdd(key, now);
      ghost var e := Event.RecordFailure(key, now);
      assert clients == Lookup(old(clients), Call(e, dropped));
      c := c.(failures := Take(Refill(c.failures, now, cfg.failures)));
      assert clients[key := c].Keys == clients.Keys;
      clients := clients[key := c];
    }
  }
}
