/**
 The failure budget of internal/api/ratelimit.go when requests of one client overlap. `allow` only looks
 at the failure budget and `recordFailure` debits it after the handler, so several requests can pass on
 one token. The number of failures is then a multiple of the withdrawals: each withdrawal can be shared by
 all the requests that were in flight when it happened, and the window bound is multiplied accordingly.
 */
module FailureBudget {
  import opened Common
  import opened RateLimiter

  predicate IsFailure(run: seq<Call>, key: Key, n: nat) {
    n < |run| && run[n].event.key == key && run[n].event.RecordFailure?
  }

  predicate IsAdmitted(cfg: Config, run: seq<Call>, key: Key, i: nat) {
    i < |run| && run[i].event.key == key && run[i].event.Allow? && GrantedAt(cfg, run, i)
  }

  /** `admitted` tells for each recorded failure which `allow` let its request in. */
  ghost predicate FromAdmitted(cfg: Config, run: seq<Call>, key: Key, admitted: map<nat, nat>) {
    forall n :: IsFailure(run, key, n) ==>
      n in admitted && admitted[n] < n && IsAdmitted(cfg, run, key, admitted[n])
  }

  /** The failing requests that are let in before call number `p` and record their failure at `p` or later. */
  function InFlight(run: seq<Call>, key: Key, admitted: map<nat, nat>, p: nat): set<nat> {
    set n | n in admitted.Keys && IsFailure(run, key, n) && admitted[n] < p <= n
  }

  /** At most `c` requests of the client that will fail are in flight at any time. */
  ghost predicate AtMostInFlight(run: seq<Call>, key: Key, admitted: map<nat, nat>, c: nat) {
    forall p :: |InFlight(run, key, admitted, p)| <= c
  }

  predicate Debited(cfg: Config, run: seq<Call>, key: Key, n: nat) {
    IsFailure(run, key, n) && GrantedAt(cfg, run, n)
  }

  /** A failure that is recorded without a token. */
  predicate Escapes(cfg: Config, run: seq<Call>, key: Key, n: nat) {
    IsFailure(run, key, n) && !GrantedAt(cfg, run, n)
  }

  /* ---------------------------------------------------------------- every escape has a withdrawal */

  ghost predicate NoDebitBetween(cfg: Config, run: seq<Call>, key: Key, i: int, n: int) {
    forall w: nat :: i < w < n ==> !Debited(cfg, run, key, w)
  }

  /** The failure bucket would cover any later call of the key. */
  ghost predicate CoversLater(cfg: Config, run: seq<Call>, key: Key, n: nat) {
    && n <= |run| && key in After(cfg, run[..n])
    && var b := After(cfg, run[..n])[key].failures;
    && b.last.Some? && 1.0 <= b.tokens <= cfg.failures.burst
    && forall j :: n <= j < |run| && run[j].event.key == key ==> b.last.value <= run[j].event.now
  }

  lemma RefilledCover(b: Bucket, now: real, q: Budget)
    requires b.last.Some? && b.last.value <= now && q.perMinute > 0.0 && 1.0 <= b.tokens <= q.burst
    ensures 1.0 <= Level(b, now, q) <= q.burst
  {
    var elapsed := now - b.last.value;
    var added := elapsed * q.perMinute;
    Added(elapsed, q.perMinute);
    assert (now - b.last.value) * q.perMinute == added;
    assert b.tokens + added >= 1.0;
  }

  lemma Added(elapsed: real, rate: real)
    requires elapsed >= 0.0 && rate > 0.0
    ensures elapsed * rate >= 0.0
  {
  }

  lemma CoverStep(cfg: Config, run: seq<Call>, key: Key, n: nat)
    requires ValidConfig(cfg) && NeverEvicted(run, key) && OrderedReadings(run, key)
    requires n < |run| && CoversLater(cfg, run, key, n)
    ensures IsFailure(run, key, n) ==> Debited(cfg, run, key, n)
    ensures !Debited(cfg, run, key, n) ==> CoversLater(cfg, run, key, n + 1)
  {
    var s, c := After(cfg, run[..n]), run[n];
    AfterOneMore(cfg, run, n);
    BucketStep(cfg, s, c, Failures, key);
    if c.event.key == key {
      var b := s[key].failures;
      RefilledCover(b, c.event.now, cfg.failures);
      assert Lookup(s, c) == s && Covered(Refill(b, c.event.now, cfg.failures));
    }
  }

  lemma {:induction false} CoverLasts(cfg: Config, run: seq<Call>, key: Key, i: nat, n: nat)
    requires ValidConfig(cfg) && NeverEvicted(run, key) && OrderedReadings(run, key)
    requires i < n <= |run| && IsAdmitted(cfg, run, key, i) && NoDebitBetween(cfg, run, key, i, n)
    ensures CoversLater(cfg, run, key, n)
    decreases n - i
  {
    if n == i + 1 {
      AdmittedEntry(cfg, run, key, i);
    } else {
      CoverLasts(cfg, run, key, i, n - 1);
      CoverStep(cfg, run, key, n - 1);
    }
  }

  /** While the request of an escaped failure was in flight, another failure took a token. */
  lemma EscapeHasCause(cfg: Config, run: seq<Call>, key: Key, i: nat, n: nat) returns (w: nat)
    requires ValidConfig(cfg) && NeverEvicted(run, key) && OrderedReadings(run, key)
    requires i < n && IsAdmitted(cfg, run, key, i) && Escapes(cfg, run, key, n)
    ensures i < w < n && Debited(cfg, run, key, w)
  {
    if NoDebitBetween(cfg, run, key, i, n) {
      CoverLasts(cfg, run, key, i, n);
      CoverStep(cfg, run, key, n);
    }
    w :| i < w < n && Debited(cfg, run, key, w);
  }

  lemma CauseOf(cfg: Config, run: seq<Call>, key: Key, admitted: map<nat, nat>, n: nat) returns (w: nat)
    requires ValidConfig(cfg) && NeverEvicted(run, key) && OrderedReadings(run, key)
    requires FromAdmitted(cfg, run, key, admitted) && Escapes(cfg, run, key, n)
    ensures n in admitted && admitted[n] < w < n && Debited(cfg, run, key, w)
  {
    assert IsFailure(run, key, n);
    w := EscapeHasCause(cfg, run, key, admitted[n], n);
  }

  /** The last withdrawal before a call that has one before it. */
  lemma {:induction false} LastDebit(cfg: Config, run: seq<Call>, key: Key, v: nat, n: nat) returns (w: nat)
    requires v < n && Debited(cfg, run, key, v)
    ensures v <= w < n && Debited(cfg, run, key, w) && NoDebitBetween(cfg, run, key, w, n)
    decreases n
  {
    if Debited(cfg, run, key, n - 1) {
      w := n - 1;
    } else {
      w := LastDebit(cfg, run, key, v, n - 1);
    }
  }

  /* ---------------------------------------------------------------- counting */

  /** The escapes of the window since the last withdrawal. */
  ghost function Pending(cfg: Config, run: seq<Call>, key: Key, from: real, to: real, n: nat): set<nat> {
    set m: nat | m < n && Escapes(cfg, run, key, m) && InWindow(run[m].event, key, from, to)
                 && NoDebitBetween(cfg, run, key, m, n)
  }

  /** They were all in flight at that withdrawal, together with the request that made it. */
  lemma PendingWereInFlight(
    cfg: Config, run: seq<Call>, key: Key, admitted: map<nat, nat>, from: real, to: real, n: nat, m: nat)
    returns (w: nat)
    requires ValidConfig(cfg) && NeverEvicted(run, key) && OrderedReadings(run, key)
    requires FromAdmitted(cfg, run, key, admitted) && m in Pending(cfg, run, key, from, to, n)
    ensures Debited(cfg, run, key, w) && w in InFlight(run, key, admitted, w)
    ensures Pending(cfg, run, key, from, to, n) <= InFlight(run, key, admitted, w) - {w}
  {
    var v := CauseOf(cfg, run, key, admitted, m);
    w := LastDebit(cfg, run, key, v, m);
    assert IsFailure(run, key, w);
    forall m' | m' in Pending(cfg, run, key, from, to, n)
      ensures m' in InFlight(run, key, admitted, w) && m' != w
    {
      SharesWithdrawal(cfg, run, key, admitted, m, m', w, n);
    }
  }

  lemma NotBetween(cfg: Config, run: seq<Call>, key: Key, i: nat, n: nat, w: nat)
    requires NoDebitBetween(cfg, run, key, i, n) && Debited(cfg, run, key, w)
    ensures w <= i || n <= w
  {
  }

  lemma NotBoth(cfg: Config, run: seq<Call>, key: Key, m: nat, w: nat)
    requires Escapes(cfg, run, key, m) && Debited(cfg, run, key, w)
    ensures m != w
  {
  }

  /** Two escapes with no withdrawal after either have the same last withdrawal before them. */
  lemma SharesWithdrawal(
    cfg: Config, run: seq<Call>, key: Key, admitted: map<nat, nat>, m: nat, m': nat, w: nat, n: nat)
    requires ValidConfig(cfg) && NeverEvicted(run, key) && OrderedReadings(run, key)
    requires FromAdmitted(cfg, run, key, admitted) && Debited(cfg, run, key, w)
    requires w < m < n && Escapes(cfg, run, key, m)
    requires NoDebitBetween(cfg, run, key, w, m) && NoDebitBetween(cfg, run, key, m, n)
    requires m' < n && Escapes(cfg, run, key, m') && NoDebitBetween(cfg, run, key, m', n)
    ensures m' in InFlight(run, key, admitted, w) && m' != w
  {
    var v := CauseOf(cfg, run, key, admitted, m');
    NotBetween(cfg, run, key, m', n, w);
    NotBetween(cfg, run, key, w, m, v);
    NotBetween(cfg, run, key, m, n, v);
    NotBoth(cfg, run, key, m', w);
    NotBoth(cfg, run, key, m, v);
  }

  lemma PendingIsSmall(
    cfg: Config, run: seq<Call>, key: Key, admitted: map<nat, nat>, c: nat, from: real, to: real, n: nat)
    requires ValidConfig(cfg) && NeverEvicted(run, key) && OrderedReadings(run, key) && c > 0
    requires FromAdmitted(cfg, run, key, admitted) && AtMostInFlight(run, key, admitted, c)
    ensures |Pending(cfg, run, key, from, to, n)| <= c - 1
  {
    var pending := Pending(cfg, run, key, from, to, n);
    if m :| m in pending {
      var w := PendingWereInFlight(cfg, run, key, admitted, from, to, n, m);
      var others := InFlight(run, key, admitted, w) - {w};
      assert |InFlight(run, key, admitted, w)| <= c;
      SubsetSize(pending, others);
    }
  }

  lemma {:induction false} SubsetSize(a: set<nat>, b: set<nat>)
    requires a <= b
    ensures |a| <= |b|
    decreases |a|
  {
    if x :| x in a {
      SubsetSize(a - {x}, b - {x});
    }
  }

  /** How the pending escapes change with one call. */
  lemma PendingStep(cfg: Config, run: seq<Call>, key: Key, from: real, to: real, n: nat)
    requires n < |run|
    ensures
      var before, after := Pending(cfg, run, key, from, to, n), Pending(cfg, run, key, from, to, n + 1);
      if Debited(cfg, run, key, n) then after == {}
      else if Escapes(cfg, run, key, n) && InWindow(run[n].event, key, from, to) then
        after == before + {n} && n !in before
      else after == before
  {
    var before, after := Pending(cfg, run, key, from, to, n), Pending(cfg, run, key, from, to, n + 1);
    forall m: nat | m < n
      ensures NoDebitBetween(cfg, run, key, m, n + 1)
              <==> NoDebitBetween(cfg, run, key, m, n) && !Debited(cfg, run, key, n)
    {
    }
    assert NoDebitBetween(cfg, run, key, n, n + 1);
    forall m: nat
      ensures m in after <==>
              m < n + 1 && Escapes(cfg, run, key, m) && InWindow(run[m].event, key, from, to)
              && NoDebitBetween(cfg, run, key, m, n + 1)
    {
    }
  }

  /** No reading of the key among the first `n` calls is behind the window. */
  predicate NotBeyond(run: seq<Call>, key: Key, to: real, n: nat)
    requires n <= |run|
  {
    forall j :: 0 <= j < n && run[j].event.key == key ==> run[j].event.now <= to
  }

  lemma CountStep(cfg: Config, run: seq<Call>, key: Key, from: real, to: real, n: nat)
    requires n < |run|
    ensures Attempts(run[..n + 1], Failures, key, from, to)
            == Attempts(run[..n], Failures, key, from, to)
               + (if IsFailure(run, key, n) && InWindow(run[n].event, key, from, to) then 1 else 0)
    ensures Withdrawn(cfg, run[..n + 1], Failures, key, from, to)
            == Withdrawn(cfg, run[..n], Failures, key, from, to)
               + (if Debited(cfg, run, key, n) && InWindow(run[n].event, key, from, to) then 1 else 0)
  {
    assert run[..n + 1][..n] == run[..n];
  }

  /** Before the window nothing counts. */
  lemma {:induction false} NothingBefore(run: seq<Call>, key: Key, from: real, to: real, n: nat)
    requires n <= |run| && forall j :: 0 <= j < n && run[j].event.key == key ==> run[j].event.now < from
    ensures Attempts(run[..n], Failures, key, from, to) == 0
  {
    if n > 0 {
      NothingBefore(run, key, from, to, n - 1);
      assert run[..n][..n - 1] == run[..n - 1];
    }
  }

  predicate SharedCount(a: nat, c: nat, w: nat, pending: nat) {
    a <= c * w + pending
  }

  /** Attempts are `c` times the withdrawals at most, but for the escapes since the last one. */
  ghost predicate Shared(cfg: Config, run: seq<Call>, key: Key, c: nat, from: real, to: real, n: nat)
    requires n <= |run|
  {
    SharedCount(Attempts(run[..n], Failures, key, from, to), c,
                Withdrawn(cfg, run[..n], Failures, key, from, to), |Pending(cfg, run, key, from, to, n)|)
  }

  lemma SharedStep(
    cfg: Config, run: seq<Call>, key: Key, admitted: map<nat, nat>, c: nat, from: real, to: real, n: nat)
    requires ValidConfig(cfg) && NeverEvicted(run, key) && OrderedReadings(run, key) && c > 0
    requires FromAdmitted(cfg, run, key, admitted) && AtMostInFlight(run, key, admitted, c)
    requires n < |run| && NotBeyond(run, key, to, n + 1) && Shared(cfg, run, key, c, from, to, n)
    ensures Shared(cfg, run, key, c, from, to, n + 1)
  {
    CountStep(cfg, run, key, from, to, n);
    PendingStep(cfg, run, key, from, to, n);
    var a, w := Attempts(run[..n], Failures, key, from, to), Withdrawn(cfg, run[..n], Failures, key, from, to);
    var pending := |Pending(cfg, run, key, from, to, n)|;
    PendingIsSmall(cfg, run, key, admitted, c, from, to, n);
    if Debited(cfg, run, key, n) && !InWindow(run[n].event, key, from, to) {
      NothingBefore(run, key, from, to, n);
    }
    ShareOneMore(a, c, w, pending,
                 Attempts(run[..n + 1], Failures, key, from, to),
                 Withdrawn(cfg, run[..n + 1], Failures, key, from, to),
                 |Pending(cfg, run, key, from, to, n + 1)|);
  }

  /** One call more: a withdrawal settles what is pending, an escape adds to it, and others change nothing. */
  lemma ShareOneMore(a: nat, c: nat, w: nat, pending: nat, a': nat, w': nat, pending': nat)
    requires SharedCount(a, c, w, pending) && pending < c
    requires
      || (a' == a + 1 && w' == w + 1 && pending' == 0)
      || (a' == a + 1 && w' == w && pending' == pending + 1)
      || (a' == a && w' == w && pending' == pending)
      || a' == 0
    ensures SharedCount(a', c, w', pending')
  {
    assert c * (w + 1) == c * w + c;
    assert 0 <= c * w';
  }

  lemma {:induction false} AttemptsShared(
    cfg: Config, run: seq<Call>, key: Key, admitted: map<nat, nat>, c: nat, from: real, to: real, n: nat)
    requires ValidConfig(cfg) && NeverEvicted(run, key) && OrderedReadings(run, key) && c > 0
    requires FromAdmitted(cfg, run, key, admitted) && AtMostInFlight(run, key, admitted, c)
    requires n <= |run| && NotBeyond(run, key, to, n)
    ensures Shared(cfg, run, key, c, from, to, n)
  {
    if n == 0 {
      assert run[..0] == [];
    } else {
      AttemptsShared(cfg, run, key, admitted, c, from, to, n - 1);
      SharedStep(cfg, run, key, admitted, c, from, to, n - 1);
    }
  }

  /** Once a reading was behind the window, no call of the key is in it any more. */
  lemma BeyondIsOver(run: seq<Call>, key: Key, from: real, to: real, n: nat)
    requires OrderedReadings(run, key) && n <= |run| && !NotBeyond(run, key, to, n)
    ensures n > 0 && !InWindow(run[n - 1].event, key, from, to)
  {
  }

  predicate PerWithdrawal(a: nat, c: nat, w: nat) {
    a <= c * w + c - 1
  }

  lemma PendingIsLessThanOneShare(a: nat, c: nat, w: nat, pending: nat)
    requires SharedCount(a, c, w, pending) && pending < c
    ensures PerWithdrawal(a, c, w)
  {
  }

  /** With at most `c` failing requests in flight, the failures are at most `c` per withdrawal, and `c` - 1 more. */
  lemma {:induction false} AttemptsPerWithdrawal(
    cfg: Config, run: seq<Call>, key: Key, admitted: map<nat, nat>, c: nat, from: real, to: real, n: nat)
    requires ValidConfig(cfg) && NeverEvicted(run, key) && OrderedReadings(run, key) && c > 0
    requires FromAdmitted(cfg, run, key, admitted) && AtMostInFlight(run, key, admitted, c)
    requires n <= |run|
    ensures PerWithdrawal(Attempts(run[..n], Failures, key, from, to), c,
                          Withdrawn(cfg, run[..n], Failures, key, from, to))
  {
    if NotBeyond(run, key, to, n) {
      AttemptsShared(cfg, run, key, admitted, c, from, to, n);
      PendingIsSmall(cfg, run, key, admitted, c, from, to, n);
      PendingIsLessThanOneShare(
        Attempts(run[..n], Failures, key, from, to), c, Withdrawn(cfg, run[..n], Failures, key, from, to),
        |Pending(cfg, run, key, from, to, n)|);
    } else {
      BeyondIsOver(run, key, from, to, n);
      CountStep(cfg, run, key, from, to, n - 1);
      AttemptsPerWithdrawal(cfg, run, key, admitted, c, from, to, n - 1);
    }
  }

  /** `n` is within `c` times the budget of a window of the given length, and `c` - 1 more. */
  predicate WithinShared(n: nat, c: nat, q: Budget, length: real) {
    n as real <= c as real * (q.burst + q.perMinute * length) + c as real - 1.0
  }

  lemma Multiplied(a: nat, c: nat, n: nat, q: Budget, length: real)
    requires Within(n, q, length) && PerWithdrawal(a, c, n)
    ensures WithinShared(a, c, q, length)
  {
    TimesBudget(c, n, q.burst + q.perMinute * length);
  }

  lemma TimesBudget(c: nat, n: nat, budget: real)
    requires n as real <= budget
    ensures (c * n) as real <= c as real * budget
  {
    assert (c * n) as real == c as real * n as real;
    assert 0.0 <= c as real * (budget - n as real);
  }

  /**
   Main bound for overlapping requests: with at most `c` failing requests of a client in flight, its
   failures in a window number at most `c` times the budget of the window, and `c` - 1 more. For c = 1,
   each failure recorded before the next request, this is the budget itself.
   */
  lemma FailuresWithinSharedBudget(
    cfg: Config, run: seq<Call>, key: Key, admitted: map<nat, nat>, c: nat, from: real, to: real)
    requires ValidConfig(cfg) && NeverEvicted(run, key) && OrderedReadings(run, key) && c > 0 && from <= to
    requires FromAdmitted(cfg, run, key, admitted) && AtMostInFlight(run, key, admitted, c)
    ensures WithinShared(Attempts(run, Failures, key, from, to), c, cfg.failures, to - from)
  {
    assert run[..|run|] == run;
    AttemptsPerWithdrawal(cfg, run, key, admitted, c, from, to, |run|);
    WithdrawnWithinBudget(cfg, run, Failures, key, from, to);
    Multiplied(Attempts(run, Failures, key, from, to), c, Withdrawn(cfg, run, Failures, key, from, to),
               cfg.failures, to - from);
  }

  /* ---------------------------------------------------------------- the factor is needed */

  const TIGHT := Config(Budget(60.0, 20.0), Budget(1.0, 1.0))

  /** Three requests are let in at once, then all three fail; a minute later the same again. */
  function CallAt(n: nat): Call {
    var t := if n < 6 then 0.0 else 1.0;
    Call(if n % 6 < 3 then Allow("k", t) else RecordFailure("k", t), {})
  }

  const TWO_ROUNDS: seq<Call> := seq(12, n requires 0 <= n < 12 => CallAt(n))

  /** The first failure belongs to the first request, and so on. */
  const LET_IN: map<nat, nat> := map n | 0 <= n < 12 && n % 6 >= 3 :: n - 3

  /** The key is known with these buckets, or will get them. */
  predicate Knows(s: Clients, cl: Client) {
    s == map["k" := cl] || (s == map[] && cl == Fresh(cl.lastSeen))
  }

  predicate Full(cl: Client, t: real, requests: real) {
    Level(cl.requests, t, TIGHT.requests) == requests && Level(cl.failures, t, TIGHT.failures) == 1.0
  }

  lemma LetIn(run: seq<Call>, n: nat, before: Client, t: real, requests: real)
    requires n < |run| && run[n] == Call(Allow("k", t), {}) && Knows(After(TIGHT, run[..n]), before)
    requires before.lastSeen == t || before.requests.last.Some?
    requires Full(before, t, requests) && 1.0 <= requests <= 20.0
    ensures GrantedAt(TIGHT, run, n)
    ensures After(TIGHT, run[..n + 1]) == map["k" := Client(Bucket(requests - 1.0, Some(t)), Bucket(1.0, Some(t)), t)]
  {
    AfterOneMore(TIGHT, run, n);
    assert Next(TIGHT, After(TIGHT, run[..n]), run[n])
           == map["k" := Client(Bucket(requests - 1.0, Some(t)), Bucket(1.0, Some(t)), t)];
  }

  lemma Fails(run: seq<Call>, n: nat, t: real, requests: real, failures: real)
    requires n < |run| && run[n] == Call(RecordFailure("k", t), {}) && 0.0 <= failures <= 1.0
    requires After(TIGHT, run[..n]) == map["k" := Client(Bucket(requests, Some(t)), Bucket(failures, Some(t)), t)]
    ensures
      var left := if failures >= 1.0 then failures - 1.0 else failures;
      After(TIGHT, run[..n + 1]) == map["k" := Client(Bucket(requests, Some(t)), Bucket(left, Some(t)), t)]
  {
    AfterOneMore(TIGHT, run, n);
    AtOnce(Bucket(failures, Some(t)), t, TIGHT.failures);
  }

  lemma AtOnce(b: Bucket, t: real, q: Budget)
    requires b.last == Some(t) && b.tokens <= q.burst
    ensures Level(b, t, q) == b.tokens
  {
    var added := (t - b.last.value) * q.perMinute;
    NothingAdded(t - b.last.value, q.perMinute);
    assert added == 0.0;
    assert b.tokens + added == b.tokens;
  }

  lemma NothingAdded(elapsed: real, rate: real)
    requires elapsed == 0.0
    ensures elapsed * rate == 0.0
  {
  }

  lemma ThreeLetIn(run: seq<Call>, n: nat, before: Client, t: real)
    requires n + 3 <= |run| && Knows(After(TIGHT, run[..n]), before)
    requires run[n] == run[n + 1] == run[n + 2] == Call(Allow("k", t), {})
    requires (before.lastSeen == t || before.requests.last.Some?) && Full(before, t, 20.0)
    ensures GrantedAt(TIGHT, run, n) && GrantedAt(TIGHT, run, n + 1) && GrantedAt(TIGHT, run, n + 2)
    ensures After(TIGHT, run[..n + 3]) == map["k" := Client(Bucket(17.0, Some(t)), Bucket(1.0, Some(t)), t)]
  {
    LetIn(run, n, before, t, 20.0);
    LetIn(run, n + 1, Client(Bucket(19.0, Some(t)), Bucket(1.0, Some(t)), t), t, 19.0);
    LetIn(run, n + 2, Client(Bucket(18.0, Some(t)), Bucket(1.0, Some(t)), t), t, 18.0);
  }

  lemma ThreeFail(run: seq<Call>, n: nat, t: real)
    requires n + 3 <= |run|
    requires run[n] == run[n + 1] == run[n + 2] == Call(RecordFailure("k", t), {})
    requires After(TIGHT, run[..n]) == map["k" := Client(Bucket(17.0, Some(t)), Bucket(1.0, Some(t)), t)]
    ensures After(TIGHT, run[..n + 3]) == map["k" := Client(Bucket(17.0, Some(t)), Bucket(0.0, Some(t)), t)]
  {
    Fails(run, n, t, 17.0, 1.0);
    Fails(run, n + 1, t, 17.0, 0.0);
    Fails(run, n + 2, t, 17.0, 0.0);
  }

  lemma FirstRound(run: seq<Call>)
    requires |run| == 12 && forall n :: 0 <= n < 12 ==> run[n] == CallAt(n)
    ensures GrantedAt(TIGHT, run, 0) && GrantedAt(TIGHT, run, 1) && GrantedAt(TIGHT, run, 2)
    ensures After(TIGHT, run[..6]) == map["k" := Client(Bucket(17.0, Some(0.0)), Bucket(0.0, Some(0.0)), 0.0)]
  {
    assert run[..0] == [];
    assert run[0] == CallAt(0) && run[1] == CallAt(1) && run[2] == CallAt(2);
    assert run[3] == CallAt(3) && run[4] == CallAt(4) && run[5] == CallAt(5);
    ThreeLetIn(run, 0, Fresh(0.0), 0.0);
    ThreeFail(run, 3, 0.0);
  }

  lemma SecondRound(run: seq<Call>)
    requires |run| == 12 && forall n :: 0 <= n < 12 ==> run[n] == CallAt(n)
    requires After(TIGHT, run[..6]) == map["k" := Client(Bucket(17.0, Some(0.0)), Bucket(0.0, Some(0.0)), 0.0)]
    ensures GrantedAt(TIGHT, run, 6) && GrantedAt(TIGHT, run, 7) && GrantedAt(TIGHT, run, 8)
  {
    assert run[6] == CallAt(6) && run[7] == CallAt(7) && run[8] == CallAt(8);
    var rested := Client(Bucket(17.0, Some(0.0)), Bucket(0.0, Some(0.0)), 0.0);
    assert Level(rested.failures, 1.0, TIGHT.failures) == 1.0;
    ThreeLetIn(run, 6, rested, 1.0);
  }

  lemma RoundsAreLetIn(run: seq<Call>, n: nat)
    requires |run| == 12 && forall j :: 0 <= j < 12 ==> run[j] == CallAt(j)
    requires n < 12 && n % 6 < 3
    ensures GrantedAt(TIGHT, run, n)
  {
    FirstRound(run);
    SecondRound(run);
    assert n == 0 || n == 1 || n == 2 || n == 6 || n == 7 || n == 8;
  }

  lemma RoundsFromAdmitted()
    ensures NeverEvicted(TWO_ROUNDS, "k") && OrderedReadings(TWO_ROUNDS, "k")
    ensures FromAdmitted(TIGHT, TWO_ROUNDS, "k", LET_IN)
  {
    var run := TWO_ROUNDS;
    forall n: nat | IsFailure(run, "k", n)
      ensures n in LET_IN && LET_IN[n] < n && IsAdmitted(TIGHT, run, "k", LET_IN[n])
    {
      assert run[n] == CallAt(n) && n % 6 >= 3;
      RoundsAreLetIn(run, n - 3);
      assert run[n - 3] == CallAt(n - 3);
    }
  }

  lemma ThreeInFlight()
    ensures AtMostInFlight(TWO_ROUNDS, "k", LET_IN, 3)
  {
    forall p
      ensures |InFlight(TWO_ROUNDS, "k", LET_IN, p)| <= 3
    {
      var flying := InFlight(TWO_ROUNDS, "k", LET_IN, p);
      if p <= 5 {
        assert flying <= {3, 4, 5};
        SubsetSize(flying, {3, 4, 5});
      } else {
        assert flying <= {9, 10, 11};
        SubsetSize(flying, {9, 10, 11});
      }
    }
  }

  /** The failures among the first `n` calls. */
  function FailuresAmong(n: nat): nat {
    if n == 0 then 0 else FailuresAmong(n - 1) + (if (n - 1) % 6 >= 3 then 1 else 0)
  }

  lemma {:induction false} RoundsCounted(run: seq<Call>, n: nat)
    requires |run| == 12 && n <= 12 && forall j :: 0 <= j < 12 ==> run[j] == CallAt(j)
    ensures Attempts(run[..n], Failures, "k", 0.0, 1.0) == FailuresAmong(n)
  {
    if n > 0 {
      RoundsCounted(run, n - 1);
      CountStep(TIGHT, run, "k", 0.0, 1.0, n - 1);
    }
  }

  /**
   The number in flight is a factor, not an additional term: with three requests in flight, burst 1 and
   one failure a minute, six failures fit into one minute, more than 1 + 1 + 3.
   */
  lemma InFlightMultiplies()
    ensures NeverEvicted(TWO_ROUNDS, "k") && OrderedReadings(TWO_ROUNDS, "k")
    ensures FromAdmitted(TIGHT, TWO_ROUNDS, "k", LET_IN) && AtMostInFlight(TWO_ROUNDS, "k", LET_IN, 3)
    ensures
      var failures := Attempts(TWO_ROUNDS, Failures, "k", 0.0, 1.0);
      failures == 6 && !Within(failures - 3, TIGHT.failures, 1.0)
  {
    RoundsFromAdmitted();
    ThreeInFlight();
    var run := TWO_ROUNDS;
    RoundsCounted(run, 12);
    assert run[..12] == run;
    assert FailuresAmong(6) == 3;
    assert FailuresAmong(12) == 6;
  }
}
