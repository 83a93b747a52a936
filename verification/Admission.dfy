/**
 Exactly which requests the limiter of internal/api/ratelimit.go admits. The lazily refilled buckets are
 compared with a definition that knows no buckets: a token is there exactly if in no window up to now one
 more withdrawal would exceed burst + perMinute * (length of the window).
 */
module Admission {
  import opened Common
  import opened RateLimiter

  /** One more withdrawal at `now` would stay within the budget of every window that ends now. */
  ghost predicate Affordable(cfg: Config, run: seq<Call>, kind: Kind, key: Key, now: real) {
    forall from: real :: from <= now ==>
      Within(Withdrawn(cfg, run, kind, key, from, now) + 1, BudgetOf(cfg, kind), now - from)
  }

  /** What the bucket of a kind holds when call number `n` has refilled it. */
  function LevelAt(cfg: Config, run: seq<Call>, kind: Kind, n: nat): real
    requires n < |run|
  {
    var c := run[n];
    Level(BucketOf(Lookup(After(cfg, run[..n]), c)[c.event.key], kind), c.event.now, BudgetOf(cfg, kind))
  }

  /* ---------------------------------------------------------------- a window that explains the level */

  /** Tokens and withdrawals make up what a window of this length allows. */
  predicate Balanced(tokens: real, withdrawn: nat, q: Budget, length: real) {
    tokens + withdrawn as real >= q.burst + q.perMinute * length
  }

  /** They do over the window from `from` to the last refill. */
  predicate Explains(b: Bucket, withdrawn: nat, q: Budget, from: real) {
    b.last.Some? && from <= b.last.value && Balanced(b.tokens, withdrawn, q, b.last.value - from)
  }

  lemma FullIsBalanced(withdrawn: nat, q: Budget)
    ensures Balanced(q.burst, withdrawn, q, 0.0)
  {
    assert q.perMinute * 0.0 == 0.0;
  }

  lemma MoreIsBalanced(tokens: real, withdrawn: nat, more: nat, q: Budget, length: real)
    requires Balanced(tokens, withdrawn, q, length) && withdrawn <= more
    ensures Balanced(tokens, more, q, length)
  {
  }

  lemma RestIsBalanced(tokens: real, withdrawn: nat, q: Budget, length: real, elapsed: real)
    requires Balanced(tokens, withdrawn, q, length)
    ensures Balanced(tokens + elapsed * q.perMinute, withdrawn, q, length + elapsed)
  {
    ScaledSum(length, elapsed, length + elapsed, q.perMinute);
  }

  lemma ScaledSum(x: real, y: real, z: real, rate: real)
    requires z == x + y
    ensures rate * z == rate * x + rate * y
  {
  }

  /** A refill carries the window on to `now`, or starts a new one if the bucket is full. */
  lemma RefillExplained(b: Bucket, withdrawn: nat, q: Budget, from: real, now: real) returns (from': real)
    requires Explains(b, withdrawn, q, from) && b.last.value <= now
    ensures from' == from || from' == now
    ensures from' <= now && Balanced(Level(b, now, q), if from' == from then withdrawn else 0, q, now - from')
  {
    var elapsed := now - b.last.value;
    RestIsBalanced(b.tokens, withdrawn, q, b.last.value - from, elapsed);
    assert b.last.value - from + elapsed == now - from;
    FullIsBalanced(withdrawn, q);
    FullIsBalanced(0, q);
    assert now - now == 0.0;
    from' := if Level(b, now, q) < q.burst then from else now;
  }

  lemma {:induction false} WiderWindow(
    cfg: Config, run: seq<Call>, kind: Kind, key: Key, from: real, to: real, to': real)
    requires to <= to'
    ensures Withdrawn(cfg, run, kind, key, from, to) <= Withdrawn(cfg, run, kind, key, from, to')
  {
    if run != [] {
      WiderWindow(cfg, run[..|run| - 1], kind, key, from, to, to');
    }
  }

  /** The bucket has a window that explains it, and no later reading is behind its last refill. */
  ghost predicate Explained(cfg: Config, run: seq<Call>, kind: Kind, key: Key, b: Bucket, n: nat, from: real)
    requires n <= |run|
  {
    && b.last.Some?
    && (forall j :: n <= j < |run| && run[j].event.key == key ==> b.last.value <= run[j].event.now)
    && Explains(b, Withdrawn(cfg, run[..n], kind, key, from, b.last.value), BudgetOf(cfg, kind), from)
  }

  /** Before the refill of call number `n` the bucket is new, or has such a window. */
  ghost predicate Traced(cfg: Config, run: seq<Call>, kind: Kind, key: Key, n: nat)
    requires n <= |run|
  {
    var s := After(cfg, run[..n]);
    key in s ==>
      var b := BucketOf(s[key], kind);
      b.last.Some? ==> exists from: real :: Explained(cfg, run, kind, key, b, n, from)
  }

  /** After its refill by call number `n`: full with an empty window, or the old window carried on. */
  lemma RefillTraced(cfg: Config, run: seq<Call>, kind: Kind, key: Key, n: nat) returns (from: real)
    requires n < |run| && key !in run[n].dropped && run[n].event.key == key
    requires Traced(cfg, run, kind, key, n)
    ensures from <= run[n].event.now
    ensures
      var q, now := BudgetOf(cfg, kind), run[n].event.now;
      Balanced(LevelAt(cfg, run, kind, n), Withdrawn(cfg, run[..n], kind, key, from, now), q, now - from)
  {
    var s, now, q := After(cfg, run[..n]), run[n].event.now, BudgetOf(cfg, kind);
    var b := BucketOf(Lookup(s, run[n])[key], kind);
    if key in s && b.last.Some? {
      assert b == BucketOf(s[key], kind);
      var start: real :| Explained(cfg, run, kind, key, b, n, start);
      var w := Withdrawn(cfg, run[..n], kind, key, start, b.last.value);
      from := RefillExplained(b, w, q, start, now);
      WiderWindow(cfg, run[..n], kind, key, start, b.last.value, now);
      MoreIsBalanced(Level(b, now, q), if from == start then w else 0,
                     Withdrawn(cfg, run[..n], kind, key, from, now), q, now - from);
    } else {
      from := now;
      assert b.last.None? && now - from == 0.0;
      FullIsBalanced(Withdrawn(cfg, run[..n], kind, key, from, now), q);
    }
  }

  /** The call withdraws what it withdraws, and the bucket stays explained. */
  lemma StepTraced(cfg: Config, run: seq<Call>, kind: Kind, key: Key, n: nat)
    requires n < |run| && key !in run[n].dropped && OrderedReadings(run, key)
    requires Traced(cfg, run, kind, key, n)
    ensures Traced(cfg, run, kind, key, n + 1)
  {
    var e, s := run[n].event, After(cfg, run[..n]);
    AfterOneMore(cfg, run, n);
    BucketStep(cfg, s, run[n], kind, key);
    if e.key == key && (kind.Failures? || e.Allow?) {
      var from := RefillTraced(cfg, run, kind, key, n);
      WithdrawnOneMore(cfg, run, kind, key, from, e.now, n);
      assert Explained(cfg, run, kind, key, BucketOf(After(cfg, run[..n + 1])[key], kind), n + 1, from);
    } else if key in s && BucketOf(s[key], kind).last.Some? {
      var b := BucketOf(s[key], kind);
      var from: real :| Explained(cfg, run, kind, key, b, n, from);
      WithdrawnOneMore(cfg, run, kind, key, from, b.last.value, n);
      assert Explained(cfg, run, kind, key, b, n + 1, from);
    } else {
      NewEntryUntouched(cfg, s, run[n], kind, key);
    }
  }

  /** An entry that a call adds without refilling a bucket leaves that bucket new. */
  lemma NewEntryUntouched(cfg: Config, s: Clients, c: Call, kind: Kind, key: Key)
    requires key !in c.dropped && !(c.event.key == key && (kind.Failures? || c.event.Allow?))
    requires key !in s || BucketOf(s[key], kind).last.None?
    ensures key in Next(cfg, s, c) ==> BucketOf(Next(cfg, s, c)[key], kind).last.None?
  {
  }

  lemma {:induction false} RunTraced(cfg: Config, run: seq<Call>, kind: Kind, key: Key, n: nat)
    requires NeverEvicted(run, key) && OrderedReadings(run, key) && n <= |run|
    ensures Traced(cfg, run, kind, key, n)
  {
    if n > 0 {
      RunTraced(cfg, run, kind, key, n - 1);
      StepTraced(cfg, run, kind, key, n - 1);
    } else {
      assert run[..0] == [];
    }
  }

  /* ---------------------------------------------------------------- levels and windows */

  lemma NoRoom(level: real, withdrawn: nat, q: Budget, length: real)
    requires Balanced(level, withdrawn, q, length) && level < 1.0
    ensures !Within(withdrawn + 1, q, length)
  {
  }

  /** A level below one is explained by a window that has no room for one more. */
  lemma ShortageHasWindow(cfg: Config, run: seq<Call>, kind: Kind, key: Key, n: nat)
    requires NeverEvicted(run, key) && OrderedReadings(run, key)
    requires n < |run| && run[n].event.key == key && LevelAt(cfg, run, kind, n) < 1.0
    ensures !Affordable(cfg, run[..n], kind, key, run[n].event.now)
  {
    RunTraced(cfg, run, kind, key, n);
    var from := RefillTraced(cfg, run, kind, key, n);
    var now := run[n].event.now;
    NoRoom(LevelAt(cfg, run, kind, n), Withdrawn(cfg, run[..n], kind, key, from, now), BudgetOf(cfg, kind), now - from);
  }

  lemma PotentialLeavesRoom(w: nat, b: Bucket, q: Budget, from: real, now: real)
    requires Potential(w, b, q, from) && b.last == Some(now) && b.tokens >= 1.0
    ensures Within(w + 1, q, now - from)
  {
    ScaledSum(from, now - from, now, q.perMinute);
  }

  lemma OneIsWithin(q: Budget, length: real)
    requires q.burst >= 1.0 && q.perMinute > 0.0 && length >= 0.0
    ensures Within(1, q, length)
  {
    assert 0.0 <= q.perMinute * length;
  }

  /** The withdrawals of any window leave at most what a full bucket would have left. */
  lemma LevelWithinWindow(cfg: Config, run: seq<Call>, kind: Kind, key: Key, n: nat, from: real)
    requires ValidConfig(cfg) && NeverEvicted(run, key)
    requires n < |run| && run[n].event.key == key && from <= run[n].event.now
    requires LevelAt(cfg, run, kind, n) >= 1.0
    ensures Within(Withdrawn(cfg, run[..n], kind, key, from, run[n].event.now) + 1, BudgetOf(cfg, kind),
                   run[n].event.now - from)
  {
    var s, now, q := After(cfg, run[..n]), run[n].event.now, BudgetOf(cfg, kind);
    var w := Withdrawn(cfg, run[..n], kind, key, from, now);
    WithdrawnPotential(cfg, run[..n], kind, key, from, now);
    if w > 0 {
      var b := BucketOf(s[key], kind);
      assert Lookup(s, run[n]) == s;
      RefillKeepsPotential(w, b, now, q, from);
      PotentialLeavesRoom(w, Refill(b, now, q), q, from, now);
    } else {
      OneIsWithin(q, now - from);
    }
  }

  /** The bucket holds a token exactly if a further withdrawal is affordable. */
  lemma LevelExactly(cfg: Config, run: seq<Call>, kind: Kind, key: Key, n: nat)
    requires ValidConfig(cfg) && NeverEvicted(run, key) && OrderedReadings(run, key)
    requires n < |run| && run[n].event.key == key
    ensures LevelAt(cfg, run, kind, n) >= 1.0 <==> Affordable(cfg, run[..n], kind, key, run[n].event.now)
  {
    if LevelAt(cfg, run, kind, n) >= 1.0 {
      forall from: real | from <= run[n].event.now
        ensures Within(Withdrawn(cfg, run[..n], kind, key, from, run[n].event.now) + 1, BudgetOf(cfg, kind),
                       run[n].event.now - from)
      {
        LevelWithinWindow(cfg, run, kind, key, n, from);
      }
    } else {
      ShortageHasWindow(cfg, run, kind, key, n);
    }
  }

  /** A call is granted exactly if the buckets it looks at hold a token. */
  lemma GrantedByLevels(cfg: Config, run: seq<Call>, n: nat)
    requires n < |run|
    ensures GrantedAt(cfg, run, n)
            <==> LevelAt(cfg, run, Failures, n) >= 1.0
                 && (run[n].event.Allow? ==> LevelAt(cfg, run, Requests, n) >= 1.0)
  {
  }

  /**
   Main result: for a key that is not evicted and whose readings are in order, a request is admitted
   exactly if neither budget would be exceeded in any window that ends now, counting the request itself
   and one more failure.
   */
  lemma AdmittedExactly(cfg: Config, run: seq<Call>, key: Key, n: nat)
    requires ValidConfig(cfg) && NeverEvicted(run, key) && OrderedReadings(run, key)
    requires n < |run| && run[n].event.key == key && run[n].event.Allow?
    ensures GrantedAt(cfg, run, n)
            <==> Affordable(cfg, run[..n], Requests, key, run[n].event.now)
                 && Affordable(cfg, run[..n], Failures, key, run[n].event.now)
  {
    GrantedByLevels(cfg, run, n);
    LevelExactly(cfg, run, Requests, key, n);
    LevelExactly(cfg, run, Failures, key, n);
  }

  /** A recorded failure takes a token exactly if the failure budget affords it, whatever the request budget. */
  lemma DebitedExactly(cfg: Config, run: seq<Call>, key: Key, n: nat)
    requires ValidConfig(cfg) && NeverEvicted(run, key) && OrderedReadings(run, key)
    requires n < |run| && run[n].event.key == key && run[n].event.RecordFailure?
    ensures GrantedAt(cfg, run, n) <==> Affordable(cfg, run[..n], Failures, key, run[n].event.now)
  {
    GrantedByLevels(cfg, run, n);
    LevelExactly(cfg, run, Failures, key, n);
  }

  /* ---------------------------------------------------------------- the limiter at work */

  /** The calls of a limiter that served these events. */
  predicate Serves(run: seq<Call>, events: seq<Event>) {
    |run| == |events| && forall i :: 0 <= i < |run| ==> run[i].event == events[i]
  }

  lemma AfterExtended(cfg: Config, run: seq<Call>, c: Call)
    ensures After(cfg, run + [c]) == Next(cfg, After(cfg, run), c)
    ensures GrantedAt(cfg, run + [c], |run|) == Granted(cfg, After(cfg, run), c)
    ensures forall i :: 0 <= i < |run| ==> GrantedAt(cfg, run + [c], i) == GrantedAt(cfg, run, i)
  {
    var longer := run + [c];
    assert longer[..|run|] == run;
    forall i | 0 <= i < |run|
      ensures GrantedAt(cfg, longer, i) == GrantedAt(cfg, run, i)
    {
      assert longer[..i] == run[..i];
    }
  }

  /** A key that is not evicted and whose readings are in order. */
  predicate Tracked(run: seq<Call>, key: Key) {
    NeverEvicted(run, key) && OrderedReadings(run, key)
  }

  /** Neither budget would be exceeded in any window up to call number `i`. */
  ghost predicate Admissible(cfg: Config, run: seq<Call>, i: nat)
    requires i < |run|
  {
    && Affordable(cfg, run[..i], Requests, run[i].event.key, run[i].event.now)
    && Affordable(cfg, run[..i], Failures, run[i].event.key, run[i].event.now)
  }

  lemma AnswersAreThoseOfWindows(cfg: Config, run: seq<Call>, events: seq<Event>, answers: seq<bool>)
    requires ValidConfig(cfg) && Answers(cfg, run, events, answers)
    ensures forall i :: 0 <= i < |events| && events[i].Allow? && Tracked(run, events[i].key) ==>
              (answers[i] <==> Admissible(cfg, run, i))
  {
    forall i | 0 <= i < |events| && events[i].Allow? && Tracked(run, events[i].key)
      ensures answers[i] <==> Admissible(cfg, run, i)
    {
      assert run[i].event == events[i];
      AdmittedExactly(cfg, run, events[i].key, i);
    }
  }

  /** Performs the event on the limiter; a recorded failure has no answer. */
  method ServeOne(limiter: Limiter, e: Event) returns (ok: bool, ghost c: Call)
    requires limiter.Valid()
    modifies limiter
    ensures limiter.Valid() && c.event == e && LegalDrop(old(limiter.clients), e.key, c.dropped, e.now)
    ensures limiter.clients == Next(limiter.cfg, old(limiter.clients), c)
    ensures e.Allow? ==> ok == Granted(limiter.cfg, old(limiter.clients), c)
  {
    ghost var dropped;
    match e {
      case Allow(key, now) => ok, dropped := limiter.Allow(key, now);
      case RecordFailure(key, now) =>
        dropped := limiter.RecordFailure(key, now);
        ok := true;
    }
    c := Call(e, dropped);
  }

  /** The answers to the requests among the events are those of the run. */
  ghost predicate Answers(cfg: Config, run: seq<Call>, events: seq<Event>, answers: seq<bool>) {
    && Serves(run, events) && |answers| == |events|
    && forall i :: 0 <= i < |events| && events[i].Allow? ==> answers[i] == GrantedAt(cfg, run, i)
  }

  lemma AnswersExtended(cfg: Config, run: seq<Call>, events: seq<Event>, answers: seq<bool>, c: Call, ok: bool)
    requires Answers(cfg, run, events, answers)
    requires c.event.Allow? ==> ok == Granted(cfg, After(cfg, run), c)
    ensures After(cfg, run + [c]) == Next(cfg, After(cfg, run), c)
    ensures Answers(cfg, run + [c], events + [c.event], answers + [ok])
  {
    AfterExtended(cfg, run, c);
  }

  lemma OneMoreServed(events: seq<Event>, n: nat)
    requires n < |events|
    ensures events[..n + 1] == events[..n] + [events[n]]
  {
  }

  /** Any events on a new limiter: its answers are those of the windows. */
  method Serve(given: Config, events: seq<Event>)
    returns (answers: seq<bool>, ghost cfg: Config, ghost run: seq<Call>)
    ensures cfg == Config(Filled(given.requests, DEFAULTS.requests), Filled(given.failures, DEFAULTS.failures))
    ensures Serves(run, events) && |answers| == |events|
    ensures forall i :: 0 <= i < |events| && events[i].Allow? && Tracked(run, events[i].key) ==>
              (answers[i] <==> Admissible(cfg, run, i))
  {
    var limiter := new Limiter(given);
    cfg := limiter.cfg;
    answers, run := [], [];
    for n := 0 to |events|
      invariant fresh(limiter) && limiter.Valid() && limiter.cfg == cfg && limiter.clients == After(cfg, run)
      invariant Answers(cfg, run, events[..n], answers)
    {
      var ok;
      ghost var c;
      ok, c := ServeOne(limiter, events[n]);
      AnswersExtended(cfg, run, events[..n], answers, c, ok);
      OneMoreServed(events, n);
      answers, run := answers + [ok], run + [c];
    }
    assert events[..|events|] == events;
    AnswersAreThoseOfWindows(cfg, run, events, answers);
  }
}
