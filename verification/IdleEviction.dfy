/**
 Idle eviction of the limiter is unobservable: a limiter that drops keys idle longer than
 CLIENT_IDLE_TTL answers every call as one that never evicts.

 Calls read the clock before they wait for the mutex, so a reading may be behind one that was used before.
 Readings are taken to be at most `skew` minutes behind the latest; the refill condition pays for that.
 */
module IdleEviction {
  import opened Common
  import opened RateLimiter

  /** The same calls on a limiter that never evicts. */
  function WithoutEviction(run: seq<Call>): seq<Call> {
    seq(|run|, i requires 0 <= i < |run| => Call(run[i].event, {}))
  }

  /** Only keys that were idle for longer than the TTL are dropped. */
  ghost predicate DropsOnlyIdle(cfg: Config, run: seq<Call>) {
    forall n, k :: 0 <= n < |run| && k in run[n].dropped && k in After(cfg, run[..n]) ==>
      k in Idle(After(cfg, run[..n]), run[n].event.now)
  }

  /** A failure is recorded at most `handler` minutes after some `allow` of its key. */
  ghost predicate HandlersWithin(run: seq<Call>, handler: real) {
    forall n :: 0 <= n < |run| && run[n].event.RecordFailure? ==>
      exists j :: 0 <= j < n && run[j].event.Allow? && run[j].event.key == run[n].event.key
                  && run[n].event.now - handler <= run[j].event.now
  }

  /** Both budgets refill completely within the TTL less the longest handler time and three times the skew. */
  predicate RefillsInTime(cfg: Config, handler: real, skew: real) {
    && handler >= 0.0 && skew >= 0.0
    && cfg.requests.burst <= cfg.requests.perMinute * (CLIENT_IDLE_TTL - handler - 3.0 * skew)
    && cfg.failures.burst <= cfg.failures.perMinute * (CLIENT_IDLE_TTL - handler - 3.0 * skew)
  }

  function MaxReal(a: real, b: real): real {
    if a >= b then a else b
  }

  predicate Full(b: Bucket, q: Budget, now: real) {
    Level(b, now, q) == q.burst
  }

  /** Buckets that no call at `now` or later can tell apart. */
  predicate Same(b: Bucket, b': Bucket, q: Budget, now: real) {
    b == b' || (Full(b, q, now) && Full(b', q, now))
  }

  lemma FullStaysFull(b: Bucket, q: Budget, now: real, later: real)
    requires q.perMinute > 0.0 && now <= later && Full(b, q, now)
    ensures Full(b, q, later)
  {
    if b.last.Some? {
      assert (now - b.last.value) * q.perMinute + (later - now) * q.perMinute == (later - b.last.value) * q.perMinute;
      assert 0.0 <= (later - now) * q.perMinute;
    }
  }

  lemma SameStaysSame(b: Bucket, b': Bucket, q: Budget, now: real, later: real)
    requires q.perMinute > 0.0 && now <= later && Same(b, b', q, now)
    ensures Same(b, b', q, later) && Level(b, later, q) == Level(b', later, q)
  {
    if b != b' {
      FullStaysFull(b, q, now, later);
      FullStaysFull(b', q, now, later);
    }
  }

  function Entry(s: Clients, k: Key): Client {
    if k in s then s[k] else Fresh(0.0)
  }

  predicate SameClient(cfg: Config, c: Client, c': Client, now: real) {
    && Same(c.requests, c'.requests, cfg.requests, now)
    && Same(c.failures, c'.failures, cfg.failures, now)
  }

  ghost predicate Agree(cfg: Config, s: Clients, u: Clients, now: real) {
    forall k :: SameClient(cfg, Entry(s, k), Entry(u, k), now)
  }

  /** What the bucket would hold at `now` without the cap; it never runs into debt. */
  function Uncapped(b: Bucket, now: real, q: Budget): real
    requires b.last.Some?
  {
    b.tokens + (now - b.last.value) * q.perMinute
  }

  /** A bucket that is full again, for every reading from then on, when its entry becomes evictable. */
  predicate Settles(b: Bucket, q: Budget, lastSeen: real, latest: real, skew: real) {
    b.last.Some? ==> Uncapped(b, latest, q) >= 0.0 && Full(b, q, lastSeen + CLIENT_IDLE_TTL - skew)
  }

  predicate SettlesClient(cfg: Config, c: Client, latest: real, skew: real) {
    && Settles(c.requests, cfg.requests, c.lastSeen, latest, skew)
    && Settles(c.failures, cfg.failures, c.lastSeen, latest, skew)
  }

  ghost predicate AllSettle(cfg: Config, s: Clients, latest: real, skew: real) {
    forall k :: k in s ==> SettlesClient(cfg, s[k], latest, skew)
  }

  /** Time only adds tokens. */
  lemma UncappedGrows(b: Bucket, q: Budget, now: real, later: real)
    requires b.last.Some? && q.perMinute > 0.0 && now <= later
    ensures Uncapped(b, now, q) <= Uncapped(b, later, q)
  {
    assert 0.0 <= (later - now) * q.perMinute;
    assert (now - b.last.value) * q.perMinute + (later - now) * q.perMinute == (later - b.last.value) * q.perMinute;
  }

  /** A refill, whichever way the clock went, and a withdrawal behind it leave no debt at the latest reading. */
  lemma RefillLeavesNoDebt(b: Bucket, q: Budget, latest: real, now: real)
    requires q.perMinute > 0.0 && q.burst > 0.0
    requires b.last.Some? ==> Uncapped(b, latest, q) >= 0.0
    ensures
      var latest' := MaxReal(latest, now);
      && Uncapped(Refill(b, now, q), latest', q) >= 0.0
      && Uncapped(Take(Refill(b, now, q)), latest', q) >= 0.0
  {
    var latest' := MaxReal(latest, now);
    var r := Refill(b, now, q);
    assert 0.0 <= (latest' - now) * q.perMinute;
    if b.last.Some? && r.tokens < q.burst {
      UncappedGrows(b, q, latest, latest');
      RefillIsLinear(b, q, now, latest');
    }
  }

  lemma RefillIsLinear(b: Bucket, q: Budget, now: real, later: real)
    requires b.last.Some? && Level(b, now, q) < q.burst
    ensures Uncapped(Refill(b, now, q), later, q) == Uncapped(b, later, q)
  {
    assert (now - b.last.value) * q.perMinute + (later - now) * q.perMinute == (later - b.last.value) * q.perMinute;
  }

  /** After a refill, at most one withdrawal later, the bucket is full in time. */
  lemma RefilledSettles(
    b: Bucket, q: Budget, latest: real, seen: real, now: real, handler: real, skew: real)
    requires q.perMinute > 0.0 && q.burst > 0.0
    requires q.burst <= q.perMinute * (CLIENT_IDLE_TTL - handler - 3.0 * skew)
    requires b.last.Some? ==> Uncapped(b, latest, q) >= 0.0
    requires MaxReal(latest, now) - handler - 2.0 * skew <= seen
    ensures Settles(Refill(b, now, q), q, seen, MaxReal(latest, now), skew)
    ensures Settles(Take(Refill(b, now, q)), q, seen, MaxReal(latest, now), skew)
  {
    RefillLeavesNoDebt(b, q, latest, now);
    FullInTime(Refill(b, now, q), q, seen, MaxReal(latest, now), handler, skew);
    FullInTime(Take(Refill(b, now, q)), q, seen, MaxReal(latest, now), handler, skew);
  }

  lemma FullInTime(b: Bucket, q: Budget, seen: real, latest: real, handler: real, skew: real)
    requires q.perMinute > 0.0 && b.last.Some? && Uncapped(b, latest, q) >= 0.0
    requires q.burst <= q.perMinute * (CLIENT_IDLE_TTL - handler - 3.0 * skew)
    requires latest - handler - 2.0 * skew <= seen
    ensures Full(b, q, seen + CLIENT_IDLE_TTL - skew)
  {
    var at := seen + CLIENT_IDLE_TTL - skew;
    var rest := CLIENT_IDLE_TTL - handler - 3.0 * skew;
    EnoughTime(q.perMinute, rest, at - latest);
    Accrues(b, q, latest, at);
  }

  lemma EnoughTime(rate: real, rest: real, time: real)
    requires rate > 0.0 && rest <= time
    ensures rate * rest <= time * rate
  {
    assert 0.0 <= rate * (time - rest);
  }

  lemma Accrues(b: Bucket, q: Budget, latest: real, at: real)
    requires b.last.Some? && Uncapped(b, latest, q) >= 0.0 && q.burst <= (at - latest) * q.perMinute
    ensures Full(b, q, at)
  {
    var had, gained := (latest - b.last.value) * q.perMinute, (at - latest) * q.perMinute;
    var filled := (at - b.last.value) * q.perMinute;
    Distributes(latest - b.last.value, at - latest, at - b.last.value, q.perMinute);
    assert filled == had + gained;
    assert b.tokens + filled >= q.burst;
  }

  lemma Distributes(x: real, y: real, z: real, rate: real)
    requires z == x + y
    ensures z * rate == x * rate + y * rate
  {
  }

  lemma SettledStays(cfg: Config, c: Client, latest: real, later: real, skew: real)
    requires ValidConfig(cfg) && SettlesClient(cfg, c, latest, skew) && latest <= later
    ensures SettlesClient(cfg, c, later, skew)
  {
    if c.requests.last.Some? {
      UncappedGrows(c.requests, cfg.requests, latest, later);
    }
    if c.failures.last.Some? {
      UncappedGrows(c.failures, cfg.failures, latest, later);
    }
  }

  /** Dropping an idle entry leaves a fresh one, which no reading from `floor` on can tell from it. */
  lemma IdleIsFresh(cfg: Config, c: Client, c': Client, latest: real, floor: real, skew: real)
    requires ValidConfig(cfg)
    requires SettlesClient(cfg, c, latest, skew) && floor >= c.lastSeen + CLIENT_IDLE_TTL - skew
    requires SameClient(cfg, c, c', floor)
    ensures forall at :: SameClient(cfg, Fresh(at), c', floor)
  {
    if c.requests.last.Some? {
      FullStaysFull(c.requests, cfg.requests, c.lastSeen + CLIENT_IDLE_TTL - skew, floor);
    }
    if c.failures.last.Some? {
      FullStaysFull(c.failures, cfg.failures, c.lastSeen + CLIENT_IDLE_TTL - skew, floor);
    }
  }

  /** After `client`: the limiters agree for every reading that can still come, and everything settles. */
  lemma LookupAgrees(cfg: Config, s: Clients, u: Clients, c: Call, before: real, skew: real)
    requires ValidConfig(cfg) && skew >= 0.0 && before - skew <= c.event.now
    requires Agree(cfg, s, u, before - skew) && AllSettle(cfg, s, before, skew)
    requires forall k :: k in c.dropped && k in s ==> k in Idle(s, c.event.now)
    ensures
      var latest := MaxReal(before, c.event.now);
      && Agree(cfg, Lookup(s, c), Lookup(u, Call(c.event, {})), latest - skew)
      && AllSettle(cfg, Lookup(s, c), latest, skew)
  {
    var now, latest := c.event.now, MaxReal(before, c.event.now);
    var s', u' := Lookup(s, c), Lookup(u, Call(c.event, {}));
    forall k
      ensures SameClient(cfg, Entry(s', k), Entry(u', k), latest - skew)
    {
      var a, b := Entry(s, k), Entry(u, k);
      assert SameClient(cfg, a, b, before - skew);
      SameStaysSame(a.requests, b.requests, cfg.requests, before - skew, latest - skew);
      SameStaysSame(a.failures, b.failures, cfg.failures, before - skew, latest - skew);
      if k in s && (k !in s' || s'[k] != s[k]) {
        SettledStays(cfg, s[k], before, latest, skew);
        IdleIsFresh(cfg, a, b, latest, latest - skew, skew);
      }
    }
    forall k | k in s'
      ensures SettlesClient(cfg, s'[k], latest, skew)
    {
      if k in s && s'[k] == s[k] {
        SettledStays(cfg, s[k], before, latest, skew);
      }
    }
  }

  /** One call keeps the agreement, and both limiters grant or refuse it alike. */
  lemma CallAgrees(cfg: Config, s: Clients, u: Clients, c: Call, before: real, handler: real, skew: real)
    requires ValidConfig(cfg) && RefillsInTime(cfg, handler, skew) && before - skew <= c.event.now
    requires Agree(cfg, s, u, before - skew) && AllSettle(cfg, s, before, skew)
    requires forall k :: k in c.dropped && k in s ==> k in Idle(s, c.event.now)
    requires c.event.RecordFailure? && c.event.key in s ==>
               c.event.now - handler - skew <= s[c.event.key].lastSeen
    ensures Granted(cfg, s, c) == Granted(cfg, u, Call(c.event, {}))
    ensures
      var latest := MaxReal(before, c.event.now);
      && Agree(cfg, Next(cfg, s, c), Next(cfg, u, Call(c.event, {})), latest - skew)
      && AllSettle(cfg, Next(cfg, s, c), latest, skew)
  {
    LookupAgrees(cfg, s, u, c, before, skew);
    var e, now, d, latest := c.event, c.event.now, Call(c.event, {}), MaxReal(before, c.event.now);
    var s', u' := Lookup(s, c), Lookup(u, d);
    var a, b := s'[e.key], u'[e.key];
    assert Entry(s', e.key) == a && Entry(u', e.key) == b;
    assert SameClient(cfg, a, b, latest - skew) && SettlesClient(cfg, a, latest, skew);
    SameStaysSame(a.requests, b.requests, cfg.requests, latest - skew, now);
    SameStaysSame(a.failures, b.failures, cfg.failures, latest - skew, now);
    var seen := if e.Allow? then now else a.lastSeen;
    RefilledSettles(a.requests, cfg.requests, latest, now, now, handler, skew);
    RefilledSettles(a.failures, cfg.failures, latest, seen, now, handler, skew);
    var s'', u'' := Next(cfg, s, c), Next(cfg, u, d);
    forall k
      ensures SameClient(cfg, Entry(s'', k), Entry(u'', k), latest - skew)
    {
      if k != e.key {
        assert Entry(s'', k) == Entry(s', k) && Entry(u'', k) == Entry(u', k);
      }
    }
  }

  /** Every reading is at most `skew` behind all those used before it; without skew they are in order. */
  predicate AtMostBehind(run: seq<Call>, skew: real) {
    forall i, j :: 0 <= i < j < |run| ==> run[i].event.now - skew <= run[j].event.now
  }

  /** The entry of a key is as recent as its last calls, up to the skew. */
  ghost predicate SeenSinceAllows(cfg: Config, run: seq<Call>, skew: real) {
    forall j :: 0 <= j < |run| && run[j].event.Allow? && run[j].event.key in After(cfg, run) ==>
      run[j].event.now - skew <= After(cfg, run)[run[j].event.key].lastSeen
  }

  lemma {:induction false} SeenSince(cfg: Config, run: seq<Call>, skew: real)
    requires skew >= 0.0 && AtMostBehind(run, skew)
    ensures SeenSinceAllows(cfg, run, skew)
  {
    if run != [] {
      var n := |run| - 1;
      SeenSince(cfg, run[..n], skew);
      var s, s' := After(cfg, run[..n]), After(cfg, run);
      assert s' == Next(cfg, s, run[n]);
      forall j | 0 <= j < |run| && run[j].event.Allow? && run[j].event.key in s'
        ensures run[j].event.now - skew <= s'[run[j].event.key].lastSeen
      {
        if j < n {
          assert run[..n][j] == run[j];
        }
      }
    }
  }

  /** The latest reading of a run. */
  function Latest(run: seq<Call>): real {
    if run == [] then 0.0
    else if |run| == 1 then run[0].event.now
    else MaxReal(Latest(run[..|run| - 1]), run[|run| - 1].event.now)
  }

  lemma {:induction false} LatestIsAReading(run: seq<Call>) returns (i: nat)
    requires run != []
    ensures i < |run| && run[i].event.now == Latest(run)
  {
    var n := |run| - 1;
    if n == 0 || run[n].event.now >= Latest(run[..n]) {
      i := n;
    } else {
      i := LatestIsAReading(run[..n]);
    }
  }

  /** The latest reading before call number `n`; the first one stands for the start. */
  function ClockBefore(run: seq<Call>, n: nat): real
    requires n <= |run|
  {
    if n > 0 then Latest(run[..n]) else if |run| > 0 then run[0].event.now else 0.0
  }

  lemma ClockMoves(run: seq<Call>, n: nat, skew: real)
    requires skew >= 0.0 && AtMostBehind(run, skew) && n < |run|
    ensures ClockBefore(run, n) - skew <= run[n].event.now
    ensures ClockBefore(run, n + 1) == MaxReal(ClockBefore(run, n), run[n].event.now)
  {
    if n > 0 {
      var i := LatestIsAReading(run[..n]);
      assert run[..n][i] == run[i];
      assert run[..n + 1][..n] == run[..n];
    }
  }

  /** What the assumptions on a run say about one call. */
  ghost predicate CallFits(cfg: Config, s: Clients, c: Call, before: real, handler: real, skew: real) {
    && before - skew <= c.event.now
    && (forall k :: k in c.dropped && k in s ==> k in Idle(s, c.event.now))
    && (c.event.RecordFailure? && c.event.key in s ==>
          c.event.now - handler - skew <= s[c.event.key].lastSeen)
  }

  lemma EveryCallFits(cfg: Config, run: seq<Call>, handler: real, skew: real, n: nat)
    requires skew >= 0.0 && AtMostBehind(run, skew) && HandlersWithin(run, handler) && DropsOnlyIdle(cfg, run)
    requires n < |run|
    ensures CallFits(cfg, After(cfg, run[..n]), run[n], ClockBefore(run, n), handler, skew)
  {
    var s, e := After(cfg, run[..n]), run[n].event;
    ClockMoves(run, n, skew);
    if e.RecordFailure? && e.key in s {
      SeenSince(cfg, run[..n], skew);
      var j :| 0 <= j < n && run[j].event.Allow? && run[j].event.key == e.key
               && e.now - handler <= run[j].event.now;
      assert run[..n][j] == run[j];
    }
  }

  /** The limiters with and without eviction agree, and what is idle has settled. */
  ghost predicate InStep(cfg: Config, s: Clients, u: Clients, latest: real, skew: real) {
    Agree(cfg, s, u, latest - skew) && AllSettle(cfg, s, latest, skew)
  }

  lemma AfterBoth(cfg: Config, run: seq<Call>, n: nat)
    requires n < |run|
    ensures After(cfg, run[..n + 1]) == Next(cfg, After(cfg, run[..n]), run[n])
    ensures After(cfg, WithoutEviction(run)[..n + 1])
            == Next(cfg, After(cfg, WithoutEviction(run)[..n]), Call(run[n].event, {}))
  {
    assert run[..n + 1][..n] == run[..n];
    assert WithoutEviction(run)[..n + 1][..n] == WithoutEviction(run)[..n];
  }

  lemma {:induction false} Simulates(cfg: Config, run: seq<Call>, handler: real, skew: real, n: nat)
    requires ValidConfig(cfg) && RefillsInTime(cfg, handler, skew)
    requires AtMostBehind(run, skew) && HandlersWithin(run, handler) && DropsOnlyIdle(cfg, run) && n <= |run|
    ensures InStep(cfg, After(cfg, run[..n]), After(cfg, WithoutEviction(run)[..n]), ClockBefore(run, n), skew)
  {
    if n > 0 {
      Simulates(cfg, run, handler, skew, n - 1);
      EveryCallFits(cfg, run, handler, skew, n - 1);
      ClockMoves(run, n - 1, skew);
      AfterBoth(cfg, run, n - 1);
      StaysInStep(cfg, After(cfg, run[..n - 1]), After(cfg, WithoutEviction(run)[..n - 1]), run[n - 1],
                  ClockBefore(run, n - 1), handler, skew);
    }
  }

  lemma StaysInStep(cfg: Config, s: Clients, u: Clients, c: Call, before: real, handler: real, skew: real)
    requires ValidConfig(cfg) && RefillsInTime(cfg, handler, skew)
    requires InStep(cfg, s, u, before, skew) && CallFits(cfg, s, c, before, handler, skew)
    ensures Granted(cfg, s, c) == Granted(cfg, u, Call(c.event, {}))
    ensures InStep(cfg, Next(cfg, s, c), Next(cfg, u, Call(c.event, {})), MaxReal(before, c.event.now), skew)
  {
    CallAgrees(cfg, s, u, c, before, handler, skew);
  }

  /** Idle eviction is unobservable, call by call, over every run. */
  lemma IdleEvictionUnobservable(cfg: Config, run: seq<Call>, handler: real, skew: real, n: nat)
    requires ValidConfig(cfg) && RefillsInTime(cfg, handler, skew)
    requires AtMostBehind(run, skew) && HandlersWithin(run, handler) && DropsOnlyIdle(cfg, run) && n < |run|
    ensures GrantedAt(cfg, run, n) <==> GrantedAt(cfg, WithoutEviction(run), n)
  {
    Simulates(cfg, run, handler, skew, n);
    EveryCallFits(cfg, run, handler, skew, n);
    StaysInStep(cfg, After(cfg, run[..n]), After(cfg, WithoutEviction(run)[..n]), run[n], ClockBefore(run, n),
                handler, skew);
  }

  /** Two runs of the same events with the same answers withdraw the same. */
  lemma {:induction false} WithdrawnAlike(
    cfg: Config, run: seq<Call>, other: seq<Call>, kind: Kind, key: Key, from: real, to: real, n: nat)
    requires n <= |run| == |other|
    requires forall j :: 0 <= j < n ==>
               run[j].event == other[j].event && GrantedAt(cfg, run, j) == GrantedAt(cfg, other, j)
    ensures Withdrawn(cfg, run[..n], kind, key, from, to) == Withdrawn(cfg, other[..n], kind, key, from, to)
  {
    if n == 0 {
      assert run[..0] == other[..0];
    } else {
      WithdrawnAlike(cfg, run, other, kind, key, from, to, n - 1);
      WithdrawnOneMore(cfg, run, kind, key, from, to, n - 1);
      WithdrawnOneMore(cfg, other, kind, key, from, to, n - 1);
    }
  }

  /** Hence the window bound survives idle eviction of the key itself. */
  lemma WithdrawnWithinBudgetDespiteIdleEviction(
    cfg: Config, run: seq<Call>, handler: real, skew: real, kind: Kind, key: Key, from: real, to: real)
    requires ValidConfig(cfg) && RefillsInTime(cfg, handler, skew) && from <= to
    requires AtMostBehind(run, skew) && HandlersWithin(run, handler) && DropsOnlyIdle(cfg, run)
    ensures Within(Withdrawn(cfg, run, kind, key, from, to), BudgetOf(cfg, kind), to - from)
  {
    assert run[..|run|] == run && WithoutEviction(run)[..|run|] == WithoutEviction(run);
    forall n | 0 <= n < |run|
      ensures GrantedAt(cfg, run, n) == GrantedAt(cfg, WithoutEviction(run), n)
    {
      IdleEvictionUnobservable(cfg, run, handler, skew, n);
    }
    WithdrawnAlike(cfg, run, WithoutEviction(run), kind, key, from, to, |run|);
    WithdrawnWithinBudget(cfg, WithoutEviction(run), kind, key, from, to);
  }

  /** The default limits leave four minutes for handlers and three times the skew. */
  lemma DefaultsRefillInTime()
    ensures forall handler, skew :: RefillsInTime(DEFAULTS, handler, skew)
                                    <==> 0.0 <= handler && 0.0 <= skew && handler + 3.0 * skew <= 4.0
  {
  }
}
