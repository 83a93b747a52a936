/**
 Renewal of the host certificate (internal/agentd/daemon.go, internal/api/enroll.go): the two-thirds rule,
 its int64 arithmetic, and exactly when it keeps a valid certificate on disk at every moment.
 */
module Renewal {
  import opened Common
  import opened Lifetimes

  /** Validity in whole seconds since 1970, as stored in the certificate. */
  datatype Cert = Cert(validAfter: int, validBefore: int)

  const MAX_CERT_UNIX: int := 0x100_0000_0000
  const TWO62: int := 0x4000_0000_0000_0000

  const HOST_BACKDATE: int := MINUTE
  const HOST_DEFAULT: Int64 := 30 * 24 * HOUR

  /** certTime caps absurd values; the result is in nanoseconds. */
  function CertTime(sec: int): int {
    (if sec > MAX_CERT_UNIX then MAX_CERT_UNIX else sec) * SECOND
  }

  /** Go's integer division truncates toward zero. */
  function TruncDiv(a: int, b: int): int
    requires b > 0
  {
    if a >= 0 then a / b else -((-a) / b)
  }

  /** validAfter.Add(validBefore.Sub(validAfter) * 2 / 3) */
  function RenewAt(from: int, to: int): int {
    from + TruncDiv(Wrap(Sub(to, from) * 2), 3)
  }

  predicate NeedsRenewal(cert: Option<Cert>, now: int) {
    cert.None? || now > RenewAt(CertTime(cert.value.validAfter), CertTime(cert.value.validBefore))
  }

  /** The doubling does not wrap for lifetimes below half the int64 range, and the point lies inside. */
  lemma RenewPointInside(from: int, to: int)
    requires from <= to && to - from < TWO62
    ensures RenewAt(from, to) == from + 2 * (to - from) / 3
    ensures from <= RenewAt(from, to) <= to
  {
    assert Sub(to, from) == to - from;
    assert Wrap((to - from) * 2) == (to - from) * 2;
  }

  /** From there on it wraps, and the certificate counts as due from its first moment. */
  lemma RenewPointWraps(from: int, to: int)
    requires to - from >= TWO62
    ensures RenewAt(from, to) <= from
  {
    var d := Sub(to, from);
    assert TWO62 <= d < TWO63;
    assert Wrap(d * 2) == d * 2 - TWO64;
  }

  /** issueHostCert: backdated by a minute, then truncated to whole seconds. */
  function IssueHost(now: int, validity: int): Cert {
    var d := if validity <= 0 then HOST_DEFAULT else validity;
    Cert(WholeSeconds(now - HOST_BACKDATE), WholeSeconds(now - HOST_BACKDATE + d))
  }

  predicate ValidAt(cert: Cert, t: int) {
    cert.validAfter * SECOND <= t < cert.validBefore * SECOND
  }

  /* ---------------------------------------------------------------- runs of the renewal loop */

  /** A check at some moment; `works` says whether a renewal at that moment would succeed. */
  datatype Check = Check(at: int, works: bool)

  /** A renewal is due at the check and fails, so the certificate stays as it is. */
  predicate Misses(cert: Option<Cert>, c: Check) {
    NeedsRenewal(cert, c.at) && !c.works
  }

  /** The certificate on disk after the last of some checks. */
  function OnDisk(checks: seq<Check>, validity: int): Option<Cert> {
    if checks == [] then None
    else
      var c := checks[|checks| - 1];
      var cert := OnDisk(checks[..|checks| - 1], validity);
      if NeedsRenewal(cert, c.at) && c.works then Some(IssueHost(c.at, validity)) else cert
  }

  /** How many renewals in a row have failed at the end. */
  function Missed(checks: seq<Check>, validity: int): nat {
    if checks == [] || !Misses(OnDisk(checks[..|checks| - 1], validity), checks[|checks| - 1]) then 0
    else Missed(checks[..|checks| - 1], validity) + 1
  }

  /**
   Checks in order, at most `interval` apart, in the range certTime leaves alone. The first one works
   (enrollment), and never more than `failures` renewals fail in a row.
   */
  predicate Checks(checks: seq<Check>, interval: int, validity: int, failures: nat) {
    checks != [] ==>
      var n := |checks| - 1;
      && HOST_BACKDATE <= checks[n].at && checks[n].at + validity <= MAX_CERT_UNIX * SECOND
      && (if n == 0 then checks[n].works else checks[n - 1].at <= checks[n].at <= checks[n - 1].at + interval)
      && Missed(checks, validity) <= failures
      && Checks(checks[..n], interval, validity, failures)
  }

  lemma {:induction false} ChecksPrefix(checks: seq<Check>, interval: int, validity: int, failures: nat, n: nat)
    requires Checks(checks, interval, validity, failures) && n <= |checks|
    ensures Checks(checks[..n], interval, validity, failures)
    ensures 0 < n < |checks| ==> checks[n - 1].at <= checks[n].at <= checks[n - 1].at + interval
  {
    if n < |checks| {
      var shorter := checks[..|checks| - 1];
      ChecksPrefix(shorter, interval, validity, failures, n);
      assert shorter[..n] == checks[..n];
    } else {
      assert checks[..n] == checks;
    }
  }

  /** A run with one more check. */
  lemma OneMoreCheck(checks: seq<Check>, c: Check, interval: int, validity: int, failures: nat)
    requires checks != [] && Checks(checks, interval, validity, failures) && validity > 0
    requires checks[|checks| - 1].at <= c.at <= checks[|checks| - 1].at + interval
    requires c.at + validity <= MAX_CERT_UNIX * SECOND
    requires Misses(OnDisk(checks, validity), c) ==> Missed(checks, validity) < failures
    ensures Checks(checks + [c], interval, validity, failures)
    ensures
      var cert := OnDisk(checks, validity);
      && OnDisk(checks + [c], validity)
         == (if NeedsRenewal(cert, c.at) && c.works then Some(IssueHost(c.at, validity)) else cert)
      && Missed(checks + [c], validity) == (if Misses(cert, c) then Missed(checks, validity) + 1 else 0)
  {
    var longer := checks + [c];
    assert longer[..|longer| - 1] == checks && longer[|longer| - 1] == c;
    assert HOST_BACKDATE <= checks[|checks| - 1].at;
  }

  /** If `t` lies between the n-th check and the next one, a usable certificate is on disk then. */
  predicate ValidBetween(checks: seq<Check>, validity: int, n: nat, t: int)
    requires 0 < n < |checks|
  {
    checks[n - 1].at <= t <= checks[n].at ==>
      OnDisk(checks[..n], validity).Some? && ValidAt(OnDisk(checks[..n], validity).value, t)
  }

  /** A usable certificate is on disk at every moment from the first check to the last. */
  ghost predicate AlwaysValid(checks: seq<Check>, validity: int) {
    forall n, t :: 0 < n < |checks| ==> ValidBetween(checks, validity, n, t)
  }

  /**
   A certificate is at most a minute and a second less one nanosecond old when it arrives (less the part
   of the validity that truncation cuts off), and an unrenewed one at most two thirds of its life; `span`
   more must fit in either case.
   */
  predicate Outlasts(validity: int, span: int) {
    var whole := validity / SECOND * SECOND;
    span + Max(HOST_BACKDATE + SECOND - 1 - validity % SECOND, 2 * whole / 3) < whole
  }

  /** From the last moment without a failed renewal to the check that succeeds after `failures` of them. */
  function Span(interval: int, failures: nat): int {
    (failures + 1) * interval
  }

  /** The exact condition on the configuration. */
  predicate Safe(validity: int, interval: int, failures: nat) {
    Outlasts(validity, Span(interval, failures))
  }

  /** The host policy refuses longer validities; the span is a duration the agent can represent. */
  predicate Configured(validity: int, interval: int, failures: nat) {
    0 < validity <= HOST_POLICY.maxValidity && 0 < interval && Span(interval, failures) < TWO63
  }

  /** How an issued certificate lies around the moment of its issue. */
  lemma IssuedShape(now: int, validity: int)
    requires 0 < validity && HOST_BACKDATE <= now
    ensures
      var c := IssueHost(now, validity);
      var f := (now - HOST_BACKDATE) % SECOND;
      && c.validAfter * SECOND == now - HOST_BACKDATE - f
      && (c.validBefore - c.validAfter) * SECOND
         == validity / SECOND * SECOND + (if f + validity % SECOND < SECOND then 0 else SECOND)
  {
    var x := now - HOST_BACKDATE;
    var f, d := x % SECOND, validity % SECOND;
    assert x == x / SECOND * SECOND + f && validity == validity / SECOND * SECOND + d;
    if f + d < SECOND {
      assert (x + validity) / SECOND == x / SECOND + validity / SECOND by {
        assert x + validity == (x / SECOND + validity / SECOND) * SECOND + (f + d);
      }
    } else {
      assert (x + validity) / SECOND == x / SECOND + validity / SECOND + 1 by {
        assert x + validity == (x / SECOND + validity / SECOND + 1) * SECOND + (f + d - SECOND);
      }
    }
  }

  /** Facts about the certificate that a check at `now` leaves on disk. */
  ghost predicate Holds(cert: Cert, now: int, validity: int) {
    var whole := validity / SECOND * SECOND;
    var start, life := cert.validAfter * SECOND, (cert.validBefore - cert.validAfter) * SECOND;
    && 0 <= cert.validAfter && cert.validBefore <= MAX_CERT_UNIX
    && start <= now
    && (life == whole || (life == whole + SECOND && validity % SECOND > 0))
    && (|| now - start <= 2 * life / 3
        || now - start <= HOST_BACKDATE + SECOND - 1 - validity % SECOND
                          + (life - whole) / SECOND * (validity % SECOND))
  }

  lemma IssuedHolds(now: int, validity: int)
    requires 0 < validity && HOST_BACKDATE <= now && now + validity <= MAX_CERT_UNIX * SECOND
    ensures Holds(IssueHost(now, validity), now, validity)
  {
    IssuedShape(now, validity);
    var c := IssueHost(now, validity);
    var x := now - HOST_BACKDATE;
    assert 0 <= x / SECOND;
    assert (x + validity) / SECOND <= MAX_CERT_UNIX;
  }

  lemma KeptHolds(cert: Cert, before: int, now: int, validity: int)
    requires Holds(cert, before, validity) && before <= now && 0 < validity <= HOST_DEFAULT
    requires !NeedsRenewal(Some(cert), now)
    ensures Holds(cert, now, validity)
  {
    RenewPointInside(cert.validAfter * SECOND, cert.validBefore * SECOND);
  }

  /** Under the condition, whatever holds at a moment lasts for the span. */
  lemma LastsASpan(cert: Cert, now: int, validity: int, span: int, t: int)
    requires 0 < validity <= HOST_DEFAULT && Outlasts(validity, span)
    requires Holds(cert, now, validity) && now <= t <= now + span
    ensures ValidAt(cert, t)
  {
    var whole := validity / SECOND * SECOND;
    var life := (cert.validBefore - cert.validAfter) * SECOND;
    if life != whole {
      assert (life - whole) / SECOND == 1;
      assert 2 * life / 3 <= 2 * whole / 3 + SECOND;
    } else {
      assert (life - whole) / SECOND == 0;
    }
  }

  /** The last check at which no renewal failed: the certificate was new then, or not due. */
  function Settled(checks: seq<Check>, validity: int): int
    requires checks != []
  {
    var n := |checks| - 1;
    if n > 0 && Misses(OnDisk(checks[..n], validity), checks[n]) then Settled(checks[..n], validity)
    else checks[n].at
  }

  lemma {:induction false} EveryCheckHolds(checks: seq<Check>, validity: int, interval: int, failures: nat)
    requires 0 < validity <= HOST_DEFAULT && 0 < interval
    requires Checks(checks, interval, validity, failures) && checks != []
    ensures OnDisk(checks, validity).Some?
    ensures Holds(OnDisk(checks, validity).value, Settled(checks, validity), validity)
    ensures
      var now := checks[|checks| - 1].at;
      Settled(checks, validity) <= now <= Settled(checks, validity) + Missed(checks, validity) * interval
  {
    var n := |checks| - 1;
    var c, earlier := checks[n], checks[..n];
    var cert := OnDisk(earlier, validity);
    if n > 0 {
      EveryCheckHolds(earlier, validity, interval, failures);
    }
    if Misses(cert, c) {
      OneMoreInterval(Missed(earlier, validity), interval);
    } else if NeedsRenewal(cert, c.at) {
      IssuedHolds(c.at, validity);
    } else {
      KeptHolds(cert.value, Settled(earlier, validity), c.at, validity);
    }
  }

  lemma OneMoreInterval(k: nat, interval: int)
    ensures (k + 1) * interval == k * interval + interval
  {
  }

  lemma WithinSpan(k: nat, failures: nat, interval: int)
    requires k <= failures && 0 < interval
    ensures k * interval + interval <= Span(interval, failures)
  {
    OneMoreInterval(k, interval);
    assert (k + 1) * interval <= (failures + 1) * interval;
  }

  /** The condition suffices for every run. */
  lemma SafeSuffices(checks: seq<Check>, validity: int, interval: int, failures: nat)
    requires Configured(validity, interval, failures) && Safe(validity, interval, failures)
    requires Checks(checks, interval, validity, failures)
    ensures AlwaysValid(checks, validity)
  {
    forall n, t | 0 < n < |checks|
      ensures ValidBetween(checks, validity, n, t)
    {
      if checks[n - 1].at <= t <= checks[n].at {
        ValidBetweenChecks(checks, validity, interval, failures, n, t);
      }
    }
  }

  lemma ValidBetweenChecks(checks: seq<Check>, validity: int, interval: int, failures: nat, n: nat, t: int)
    requires Configured(validity, interval, failures) && Safe(validity, interval, failures)
    requires Checks(checks, interval, validity, failures)
    requires 0 < n < |checks| && checks[n - 1].at <= t <= checks[n].at
    ensures ValidBetween(checks, validity, n, t)
  {
    var earlier := checks[..n];
    ChecksPrefix(checks, interval, validity, failures, n);
    EveryCheckHolds(earlier, validity, interval, failures);
    assert earlier[|earlier| - 1] == checks[n - 1];
    WithinSpan(Missed(earlier, validity), failures, interval);
    LastsASpan(OnDisk(earlier, validity).value, Settled(earlier, validity), validity, Span(interval, failures), t);
  }

  /* ---------------------------------------------------------------- the condition is also necessary */

  /** An outage: `k` checks one interval apart at which no renewal works. */
  function WithOutage(checks: seq<Check>, interval: int, k: nat): (r: seq<Check>)
    requires checks != []
    ensures |r| == |checks| + k && r[|r| - 1].at == checks[|checks| - 1].at + k * interval
  {
    if k == 0 then checks
    else
      var before := WithOutage(checks, interval, k - 1);
      before + [Check(before[|before| - 1].at + interval, false)]
  }

  /** It leaves the certificate alone and costs at most `k` renewals. */
  lemma {:induction false} OutageKeepsCert(
    checks: seq<Check>, interval: int, validity: int, failures: nat, k: nat)
    requires checks != [] && Checks(checks, interval, validity, failures) && Missed(checks, validity) == 0
    requires 0 < validity && 0 < interval && k <= failures
    requires checks[|checks| - 1].at + k * interval + validity <= MAX_CERT_UNIX * SECOND
    ensures
      var r := WithOutage(checks, interval, k);
      && Checks(r, interval, validity, failures) && Missed(r, validity) <= k
      && OnDisk(r, validity) == OnDisk(checks, validity)
  {
    if k > 0 {
      OneMoreInterval(k - 1, interval);
      OutageKeepsCert(checks, interval, validity, failures, k - 1);
      var before := WithOutage(checks, interval, k - 1);
      OneMoreCheck(before, Check(before[|before| - 1].at + interval, false), interval, validity, failures);
    }
  }

  /** After a run and the outage behind it, the certificate must last the whole span. */
  lemma MustLast(checks: seq<Check>, interval: int, validity: int, failures: nat, cert: Cert)
    returns (longer: seq<Check>)
    requires checks != [] && Checks(checks, interval, validity, failures) && Missed(checks, validity) == 0
    requires Configured(validity, interval, failures) && OnDisk(checks, validity) == Some(cert)
    requires checks[|checks| - 1].at <= HOST_DEFAULT
    requires !ValidAt(cert, checks[|checks| - 1].at + Span(interval, failures))
    ensures Checks(longer, interval, validity, failures) && !AlwaysValid(longer, validity)
  {
    var last := checks[|checks| - 1].at;
    OneMoreInterval(failures, interval);
    OutageKeepsCert(checks, interval, validity, failures, failures);
    var r := WithOutage(checks, interval, failures);
    var c := Check(last + Span(interval, failures), true);
    OneMoreCheck(r, c, interval, validity, failures);
    longer := r + [c];
    assert longer[..|r|] == r;
    assert !ValidBetween(longer, validity, |r|, last + Span(interval, failures));
  }

  /** A first check, after which the certificate is as old as it can be when it arrives. */
  lemma LateArrival(validity: int, interval: int, failures: nat) returns (checks: seq<Check>)
    requires Configured(validity, interval, failures)
    requires Span(interval, failures) + HOST_BACKDATE + SECOND - 1 - validity % SECOND >= validity / SECOND * SECOND
    ensures Checks(checks, interval, validity, failures) && !AlwaysValid(checks, validity)
  {
    var d := validity % SECOND;
    var first := HOST_BACKDATE + SECOND - 1 - d;
    var start := [Check(first, true)];
    assert start[..0] == [];
    assert OnDisk(start[..0], validity) == None;
    var cert := IssueHost(first, validity);
    assert (SECOND - 1 - d + validity) / SECOND == validity / SECOND by {
      assert SECOND - 1 - d + validity == validity / SECOND * SECOND + (SECOND - 1);
    }
    assert cert.validBefore == validity / SECOND;
    checks := MustLast(start, interval, validity, failures, cert);
  }

  /** Working checks every interval from `from` up to exactly `goal`. */
  function Ladder(from: int, goal: int, interval: int): (r: seq<Check>)
    requires from <= goal && interval > 0
    ensures r != [] && r[|r| - 1] == Check(goal, true)
    decreases goal - from
  {
    if from == goal then [Check(goal, true)]
    else Ladder(from, Max(from, goal - interval), interval) + [Check(goal, true)]
  }

  lemma {:induction false} LadderKeepsFirst(goal: int, interval: int, validity: int, failures: nat)
    requires 0 < validity <= HOST_DEFAULT && 0 < interval
    requires
      var r := 2 * (validity / SECOND * SECOND) / 3;
      HOST_BACKDATE <= goal <= r && r + validity <= MAX_CERT_UNIX * SECOND
    ensures
      var ladder := Ladder(HOST_BACKDATE, goal, interval);
      && Checks(ladder, interval, validity, failures) && Missed(ladder, validity) == 0
      && OnDisk(ladder, validity) == Some(Cert(0, validity / SECOND))
    decreases goal
  {
    if goal == HOST_BACKDATE {
      FirstRung(interval, validity, failures);
    } else {
      var back := Max(HOST_BACKDATE, goal - interval);
      LadderKeepsFirst(back, interval, validity, failures);
      NotDueYet(goal, validity);
      OneMoreCheck(Ladder(HOST_BACKDATE, back, interval), Check(goal, true), interval, validity, failures);
    }
  }

  lemma FirstRung(interval: int, validity: int, failures: nat)
    requires 0 < validity && HOST_BACKDATE + validity <= MAX_CERT_UNIX * SECOND
    ensures
      var start := [Check(HOST_BACKDATE, true)];
      && Checks(start, interval, validity, failures) && Missed(start, validity) == 0
      && OnDisk(start, validity) == Some(Cert(0, validity / SECOND))
  {
    var start := [Check(HOST_BACKDATE, true)];
    assert start[..0] == [] && OnDisk(start[..0], validity) == None;
    assert WholeSeconds(0) == 0;
    assert IssueHost(HOST_BACKDATE, validity) == Cert(0, validity / SECOND);
  }

  lemma NotDueYet(goal: int, validity: int)
    requires 0 < validity <= HOST_DEFAULT && goal <= 2 * (validity / SECOND * SECOND) / 3
    ensures !NeedsRenewal(Some(Cert(0, validity / SECOND)), goal)
  {
    var w := validity / SECOND;
    assert 0 <= w * SECOND <= validity;
    RenewPointInside(0, w * SECOND);
    assert CertTime(0) == 0 && CertTime(w) == w * SECOND;
  }

  /** A check exactly at two thirds does not renew, and after the outage it is too late. */
  lemma LateRenewal(validity: int, interval: int, failures: nat) returns (checks: seq<Check>)
    requires Configured(validity, interval, failures)
    requires
      var whole := validity / SECOND * SECOND;
      2 * whole / 3 >= HOST_BACKDATE && Span(interval, failures) + 2 * whole / 3 >= whole
    ensures Checks(checks, interval, validity, failures) && !AlwaysValid(checks, validity)
  {
    var r := 2 * (validity / SECOND * SECOND) / 3;
    LadderKeepsFirst(r, interval, validity, failures);
    checks := MustLast(Ladder(HOST_BACKDATE, r, interval), interval, validity, failures, Cert(0, validity / SECOND));
  }

  /**
   Main result: the certificate on disk is valid at every moment of every run in which at most `failures`
   renewals fail in a row, exactly when the configuration is safe for that many.
   */
  lemma AlwaysValidExactlyWhenSafe(validity: int, interval: int, failures: nat)
    requires Configured(validity, interval, failures)
    ensures Safe(validity, interval, failures)
            <==> forall checks :: Checks(checks, interval, validity, failures) ==> AlwaysValid(checks, validity)
  {
    if Safe(validity, interval, failures) {
      forall checks | Checks(checks, interval, validity, failures)
        ensures AlwaysValid(checks, validity)
      {
        SafeSuffices(checks, validity, interval, failures);
      }
    } else if Span(interval, failures) + HOST_BACKDATE + SECOND - 1 - validity % SECOND
              >= validity / SECOND * SECOND {
      var checks := LateArrival(validity, interval, failures);
    } else {
      var checks := LateRenewal(validity, interval, failures);
    }
  }

  /** For validities of whole seconds from 92 seconds on, three spans per lifetime are enough. */
  lemma ThreeSpansPerLifetime(seconds: int, interval: int, failures: nat)
    requires seconds >= 92 && 0 < interval && 3 * Span(interval, failures) < seconds * SECOND
    ensures Safe(seconds * SECOND, interval, failures)
  {
    assert (seconds * SECOND) / SECOND == seconds && (seconds * SECOND) % SECOND == 0;
  }

  /** With 90 seconds they are not: truncation can cost almost a second of the remaining third. */
  lemma NinetySecondsNotEnough()
    ensures 3 * Span(29_500_000_000, 0) < 90 * SECOND && !Safe(90 * SECOND, 29_500_000_000, 0)
  {
  }

  /** The defaults, thirty days checked every five minutes, survive up to 2878 failed renewals in a row. */
  lemma DefaultsSurvive(failures: nat)
    ensures Safe(HOST_DEFAULT, 5 * MINUTE, failures) <==> failures <= 2878
  {
    assert HOST_DEFAULT % SECOND == 0 && HOST_DEFAULT / SECOND * SECOND == HOST_DEFAULT;
    assert Span(5 * MINUTE, failures) == (failures + 1) * 300 * SECOND;
  }
}
