/**
 Certificate lifetimes: the caps of internal/api/sign.go and internal/api/sign_ci.go, the policy of
 internal/ca/policy.go and the truncation to whole seconds in internal/ca/signer.go.

 Durations are int64 nanoseconds that wrap around; points in time are nanoseconds since 1970 and are
 not bounded, as in Go's time package.
 */
module Lifetimes {
  import opened Common

  const SECOND: int := 1_000_000_000
  const MINUTE: int := 60 * SECOND
  const HOUR: int := 60 * MINUTE
  const TWO63: int := 0x8000_0000_0000_0000
  const TWO64: int := 0x1_0000_0000_0000_0000

  type Int64 = x: int | -0x8000_0000_0000_0000 <= x < 0x8000_0000_0000_0000

  /** Two's complement. */
  function Wrap(x: int): Int64 {
    (x + TWO63) % TWO64 - TWO63
  }

  /** time.Duration(n) * time.Second */
  function Seconds(n: Int64): Int64 {
    Wrap(n * SECOND)
  }

  /** Time.Sub saturates. */
  function Sub(a: int, b: int): Int64 {
    if a - b >= TWO63 then TWO63 - 1 else if a - b < -TWO63 then -TWO63 else a - b
  }

  /* ---------------------------------------------------------------- policy */

  datatype CertType = UserCert | HostCert

  datatype Policy = Policy(
    certType: CertType, maxValidity: Int64, allowedPrincipals: set<string>,
    allowedExtensions: set<string>, allowedCriticalOptions: set<string>)

  datatype CertRequest = CertRequest(
    certType: CertType, keyId: string, principals: seq<string>, extensions: set<string>,
    criticalOptions: set<string>, validAfter: int, validBefore: int)

  const MAX_BACKDATE: int := 5 * MINUTE
  const SIGN_BACKDATE: int := MINUTE

  const USER_EXTENSIONS: set<string> := {
    "permit-X11-forwarding", "permit-agent-forwarding", "permit-port-forwarding", "permit-pty", "permit-user-rc"
  }

  const USER_POLICY: Policy := Policy(UserCert, 16 * HOUR, {}, USER_EXTENSIONS, {"source-address"})
  const CI_POLICY: Policy := Policy(UserCert, HOUR, {}, {"permit-pty"}, {"source-address"})
  const HOST_POLICY: Policy := Policy(HostCert, 30 * 24 * HOUR, {}, {}, {})

  /** Validate: no violation. */
  predicate Allowed(p: Policy, req: CertRequest, now: int) {
    && req.certType == p.certType && req.keyId != "" && req.principals != []
    && (p.allowedPrincipals != {} ==> forall x :: x in req.principals ==> x in p.allowedPrincipals)
    && req.extensions <= p.allowedExtensions && req.criticalOptions <= p.allowedCriticalOptions
    && req.validBefore > req.validAfter
    && Sub(req.validBefore, req.validAfter) <= p.maxValidity
    && req.validAfter >= now - MAX_BACKDATE
  }

  function WholeSeconds(t: int): int {
    t / SECOND
  }

  /** Truncation to whole seconds never lengthens a certificate past a limit in whole seconds. */
  lemma TruncationKeepsLimit(validAfter: int, validBefore: int, limitSeconds: int)
    requires validBefore - validAfter <= limitSeconds * SECOND
    ensures WholeSeconds(validBefore) - WholeSeconds(validAfter) <= limitSeconds
  {
  }

  /** It shortens one by less than a second, so only those under a second can vanish. */
  lemma TruncationLosesLittle(validAfter: int, validBefore: int)
    ensures (WholeSeconds(validBefore) - WholeSeconds(validAfter) + 1) * SECOND > validBefore - validAfter
  {
  }

  /** The two whole-second fields are equal: the certificate is never valid. */
  predicate Vanishes(validAfter: int, validBefore: int) {
    WholeSeconds(validAfter) == WholeSeconds(validBefore)
  }

  /* ---------------------------------------------------------------- grants */

  /** The true largest maximum of the grants, in seconds. */
  function LargestMaximum(grants: seq<Int64>): int {
    if grants == [] then 0 else Max(LargestMaximum(grants[..|grants| - 1]), grants[|grants| - 1])
  }

  /** The schema only stores positive maxima. */
  predicate PositiveMaxima(grants: seq<Int64>) {
    forall i :: 0 <= i < |grants| ==> grants[i] > 0
  }

  /** No maximum wraps around when converted to nanoseconds. */
  predicate NoWrap(grants: seq<Int64>) {
    forall i :: 0 <= i < |grants| ==> grants[i] * SECOND < TWO63
  }

  /** A wrapped duration of a positive number of seconds never exceeds the true one. */
  lemma WrapShortens(n: Int64)
    requires n > 0
    ensures Seconds(n) <= n * SECOND
    ensures n * SECOND < TWO63 ==> Seconds(n) == n * SECOND
  {
    if n * SECOND < TWO63 {
      assert n * SECOND + TWO63 < TWO64;
    }
  }

  method MaxGrantValidity(grants: seq<Int64>) returns (allowed: Int64)
    requires PositiveMaxima(grants)
    ensures 0 <= allowed <= LargestMaximum(grants) * SECOND
    ensures NoWrap(grants) ==> allowed == LargestMaximum(grants) * SECOND
  {
    allowed := 0;
    for i := 0 to |grants|
      invariant 0 <= allowed <= LargestMaximum(grants[..i]) * SECOND
      invariant NoWrap(grants) ==> allowed == LargestMaximum(grants[..i]) * SECOND
    {
      WrapShortens(grants[i]);
      assert grants[..i + 1][..i] == grants[..i];
      var v := Seconds(grants[i]);
      if v > allowed {
        allowed := v;
      }
    }
    assert grants[..|grants|] == grants;
  }

  /* ---------------------------------------------------------------- issuance */

  /** The requested duration as the handlers compute it; zero and negative requests mean the default. */
  function Requested(seconds: Int64, default_: Int64): Int64 {
    if seconds > 0 then Seconds(seconds) else default_
  }

  const USER_DEFAULT: Int64 := 16 * HOUR
  const CI_DEFAULT: Int64 := HOUR

  function Min(a: int, b: int): int {
    if a <= b then a else b
  }

  /** What every issued certificate keeps to: the policy, the grants and the request. */
  predicate WithinCaps(validAfter: int, validBefore: int, policy: Policy, grants: seq<Int64>, seconds: Int64) {
    var lifetime := validBefore - validAfter;
    && 0 < lifetime <= policy.maxValidity
    && lifetime <= LargestMaximum(grants) * SECOND
    && (seconds > 0 ==> lifetime <= seconds * SECOND)
    && WholeSeconds(validBefore) - WholeSeconds(validAfter) <= policy.maxValidity / SECOND
    && (lifetime >= SECOND ==> !Vanishes(validAfter, validBefore))
  }

  /**
   handleSignUser from the validity on; `now` is the clock of the handler, `checkedAt` that of the policy.
   A request above the policy maximum is refused, not clamped.
   */
  method SignUser(seconds: Int64, grants: seq<Int64>, keyId: string, principals: seq<string>, now: int, checkedAt: int)
    returns (r: Option<CertRequest>)
    requires PositiveMaxima(grants) && now <= checkedAt
    ensures r.Some? ==> grants != []
                        && WithinCaps(r.value.validAfter, r.value.validBefore, USER_POLICY, grants, seconds)
    ensures r.Some? ==> r.value == CertRequest(UserCert, keyId, principals, USER_EXTENSIONS, {}, now - SIGN_BACKDATE,
                                               r.value.validBefore)
    ensures NoWrap(grants) && seconds * SECOND < TWO63 ==>
              var lifetime := Min(Requested(seconds, USER_DEFAULT), LargestMaximum(grants) * SECOND);
              && (r.Some? <==> grants != [] && keyId != "" && principals != []
                               && lifetime <= 16 * HOUR && checkedAt <= now + 4 * MINUTE)
              && (r.Some? ==> r.value.validBefore == r.value.validAfter + lifetime
                              && !Vanishes(r.value.validAfter, r.value.validBefore))
  {
    if grants == [] {
      return None;
    }
    LargestIsPositive(grants);
    var validity: Int64 := USER_DEFAULT;
    if seconds > 0 {
      WrapShortens(seconds);
      validity := Seconds(seconds);
    }
    var allowed := MaxGrantValidity(grants);
    if validity > allowed {
      validity := allowed;
    }
    var validAfter := now - SIGN_BACKDATE;
    var req := CertRequest(UserCert, keyId, principals, USER_EXTENSIONS, {}, validAfter, validAfter + validity);
    if !Allowed(USER_POLICY, req, checkedAt) {
      return None;
    }
    TruncationKeepsLimit(validAfter, req.validBefore, USER_POLICY.maxValidity / SECOND);
    TruncationLosesLittle(validAfter, req.validBefore);
    if NoWrap(grants) && seconds * SECOND < TWO63 {
      CapInWholeSeconds(seconds, USER_DEFAULT, grants);
    }
    return Some(req);
  }

  /** Without wrap-around the capped lifetime is at least a second. */
  lemma CapInWholeSeconds(seconds: Int64, default_: Int64, grants: seq<Int64>)
    requires PositiveMaxima(grants) && grants != [] && seconds * SECOND < TWO63 && default_ >= SECOND
    ensures Min(Requested(seconds, default_), LargestMaximum(grants) * SECOND) >= SECOND
  {
    LargestIsPositive(grants);
    if seconds > 0 {
      WrapShortens(seconds);
    }
  }

  lemma LargestIsPositive(grants: seq<Int64>)
    requires PositiveMaxima(grants) && grants != []
    ensures LargestMaximum(grants) > 0
  {
  }

  /** handleSignCI from the validity on; a set token expiry ends the certificate. */
  method SignCI(seconds: Int64, grants: seq<Int64>, expiresAt: Option<int>, keyId: string, principals: seq<string>,
                now: int, checkedAt: int)
    returns (r: Option<CertRequest>)
    requires PositiveMaxima(grants) && now <= checkedAt
    ensures r.Some? ==> grants != []
                        && WithinCaps(r.value.validAfter, r.value.validBefore, CI_POLICY, grants, seconds)
    ensures r.Some? && expiresAt.Some? ==> r.value.validBefore <= expiresAt.value
    ensures r.Some? ==> r.value == CertRequest(UserCert, keyId, principals, {"permit-pty"}, {}, now - SIGN_BACKDATE,
                                               r.value.validBefore)
    ensures NoWrap(grants) && seconds * SECOND < TWO63 ==>
              var validAfter := now - SIGN_BACKDATE;
              var end := validAfter + Min(Requested(seconds, CI_DEFAULT), LargestMaximum(grants) * SECOND);
              var end' := if expiresAt.Some? then Min(end, expiresAt.value) else end;
              && (r.Some? <==> grants != [] && keyId != "" && principals != []
                               && 0 < end' - validAfter <= HOUR && checkedAt <= now + 4 * MINUTE)
              && (r.Some? ==> r.value.validBefore == end')
              && (r.Some? ==> (Vanishes(r.value.validAfter, r.value.validBefore)
                               <==> expiresAt.Some? && Vanishes(validAfter, expiresAt.value)))
  {
    if grants == [] {
      return None;
    }
    LargestIsPositive(grants);
    var validity: Int64 := CI_DEFAULT;
    if seconds > 0 {
      WrapShortens(seconds);
      validity := Seconds(seconds);
    }
    var allowed := MaxGrantValidity(grants);
    if validity > allowed {
      validity := allowed;
    }
    var validAfter := now - SIGN_BACKDATE;
    var validBefore := validAfter + validity;
    if expiresAt.Some? && validBefore > expiresAt.value {
      validBefore := expiresAt.value;
    }
    if validBefore <= validAfter {
      return None;
    }
    var req := CertRequest(UserCert, keyId, principals, {"permit-pty"}, {}, validAfter, validBefore);
    if !Allowed(CI_POLICY, req, checkedAt) {
      return None;
    }
    TruncationKeepsLimit(validAfter, validBefore, CI_POLICY.maxValidity / SECOND);
    TruncationLosesLittle(validAfter, validBefore);
    if NoWrap(grants) && seconds * SECOND < TWO63 {
      CapInWholeSeconds(seconds, CI_DEFAULT, grants);
      TruncationLosesLittle(validAfter, validAfter + validity);
    }
    return Some(req);
  }
}
