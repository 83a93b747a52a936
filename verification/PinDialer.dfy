/**
 The self-dial of the pin provider (internal/api/pinprovider.go): any number of concurrent Status callers
 and the background loop, with one mutex for the dial and one for the cached result. Times are
 nanoseconds of a clock that does not run backwards.
 */
module PinDialer {
  import opened Common

  type Op = nat

  const DEFAULT_REFRESH: int := 300_000_000_000
  const DEFAULT_BACKOFF: int := 10_000_000_000

  datatype Config = Config(refresh: int, backoff: int)

  function Refresh(cfg: Config): int {
    if cfg.refresh <= 0 then DEFAULT_REFRESH else cfg.refresh
  }

  function Backoff(cfg: Config): int {
    if cfg.backoff <= 0 then DEFAULT_BACKOFF else cfg.backoff
  }

  /** How long after a dial the next request-driven one is due: the backoff until a pin was read. */
  function Wait(cfg: Config, pin: string): int {
    if pin == "" then Backoff(cfg) else Refresh(cfg)
  }

  datatype Kind = Request | Scheduled

  /** A dial with its start; it is over when `end` is set. `pin` is the cached pin at its start. */
  datatype Dial = Dial(kind: Kind, start: int, pin: string, end: Option<int>)

  /** `knew`: a pin had been read when the Status call took its first snapshot. */
  datatype Pc =
    | WaitsForDial(kind: Kind, knew: bool)
    | HasDialLock(kind: Kind, knew: bool)
    | Dialing(kind: Kind, knew: bool)
    | Releasing(pin: string, knew: bool)
    | Answered(pin: string, knew: bool)

  datatype State = State(now: int, pin: string, checked: Option<int>, dialLock: Option<Op>, pcs: map<Op, Pc>)

  datatype Step =
    | Tick(now: int)
    | Status(op: Op)
    | ScheduledRefresh(op: Op)
    | Lock(op: Op)
    | Recheck(op: Op)
    | DialEnds(op: Op, result: Option<string>)
    | Unlock(op: Op)

  predicate Due(s: State, cfg: Config) {
    s.checked.None? || s.now - s.checked.value >= Wait(cfg, s.pin)
  }

  predicate Enabled(s: State, step: Step) {
    match step
    case Tick(now) => s.now <= now
    case Status(op) => op !in s.pcs
    case ScheduledRefresh(op) => op !in s.pcs
    case Lock(op) => op in s.pcs && s.pcs[op].WaitsForDial? && s.dialLock.None?
    case Recheck(op) => op in s.pcs && s.pcs[op].HasDialLock?
    case DialEnds(op, result) => op in s.pcs && s.pcs[op].Dialing? && (result.Some? ==> result.value != "")
    case Unlock(op) => op in s.pcs && s.pcs[op].Releasing?
  }

  function Next(s: State, step: Step, cfg: Config): State
    requires Enabled(s, step)
  {
    match step
    case Tick(now) => s.(now := now)
    case Status(op) =>
      s.(pcs := s.pcs[op := if Due(s, cfg) then WaitsForDial(Request, s.pin != "") else Answered(s.pin, s.pin != "")])
    case ScheduledRefresh(op) => s.(pcs := s.pcs[op := WaitsForDial(Scheduled, s.pin != "")])
    case Lock(op) =>
      s.(dialLock := Some(op), pcs := s.pcs[op := HasDialLock(s.pcs[op].kind, s.pcs[op].knew)])
    case Recheck(op) =>
      var pc := s.pcs[op];
      if pc.kind.Request? && !Due(s, cfg) then s.(pcs := s.pcs[op := Releasing(s.pin, pc.knew)])
      else s.(pcs := s.pcs[op := Dialing(pc.kind, pc.knew)])
    case DialEnds(op, result) =>
      var pin := if result.Some? then result.value else s.pin;
      s.(pin := pin, checked := Some(s.now), pcs := s.pcs[op := Releasing(pin, s.pcs[op].knew)])
    case Unlock(op) => s.(dialLock := None, pcs := s.pcs[op := Answered(s.pcs[op].pin, s.pcs[op].knew)])
  }

  /* ---------------------------------------------------------------- safety */

  predicate HoldsDialLock(pc: Pc) {
    pc.HasDialLock? || pc.Dialing? || pc.Releasing?
  }

  predicate InProgress(s: State) {
    s.dialLock.Some? && s.dialLock.value in s.pcs && s.pcs[s.dialLock.value].Dialing?
  }

  /** Each dial starts after the one before it ended; a request-driven one only when it was due. */
  ghost predicate WellSpaced(dials: seq<Dial>, cfg: Config) {
    forall i, j :: 0 <= i < j < |dials| ==> Spaced(dials[i], dials[j], cfg)
  }

  predicate Spaced(d: Dial, later: Dial, cfg: Config) {
    && d.end.Some? && d.start <= d.end.value <= later.start
    && (later.kind.Request? ==> later.start - d.end.value >= Wait(cfg, later.pin))
  }

  predicate IsDialing(s: State, op: Op) {
    op in s.pcs && s.pcs[op].Dialing?
  }

  /** The history of dials: one starts when an operation begins to dial and ends when it no longer does. */
  function DialsAfter(dials: seq<Dial>, s: State, step: Step, s': State): seq<Dial> {
    if step.Tick? then dials
    else if !IsDialing(s, step.op) && IsDialing(s', step.op) then
      dials + [Dial(s'.pcs[step.op].kind, s.now, s.pin, None)]
    else if IsDialing(s, step.op) && !IsDialing(s', step.op) && dials != [] then
      dials[|dials| - 1 := dials[|dials| - 1].(end := Some(s.now))]
    else dials
  }

  ghost predicate Inv(s: State, dials: seq<Dial>, cfg: Config) {
    && (s.dialLock.Some? ==> s.dialLock.value in s.pcs && HoldsDialLock(s.pcs[s.dialLock.value]))
    && (forall op :: op in s.pcs ==>
          && (HoldsDialLock(s.pcs[op]) ==> s.dialLock == Some(op))
          && (s.pcs[op].knew ==>
                 s.pin != "" && ((s.pcs[op].Releasing? || s.pcs[op].Answered?) ==> s.pcs[op].pin != "")))
    && WellSpaced(dials, cfg)
    && (dials == [] ==> s.checked.None?)
    && (dials != [] ==>
          var last := dials[|dials| - 1];
          && last.start <= s.now
          && (last.end.None? <==> InProgress(s))
          && (last.end.Some? ==> s.checked == last.end && last.start <= last.end.value <= s.now))
    && (InProgress(s) ==> dials != [])
  }

  lemma StepKeepsInv(s: State, dials: seq<Dial>, step: Step, cfg: Config)
    requires Inv(s, dials, cfg) && Enabled(s, step)
    ensures Inv(Next(s, step, cfg), DialsAfter(dials, s, step, Next(s, step, cfg)), cfg)
    ensures s.pin != "" ==> Next(s, step, cfg).pin != ""
  {
    var s' := Next(s, step, cfg);
    if step.Recheck? || step.DialEnds? {
      assert s.dialLock == Some(step.op);
    }
  }

  ghost predicate Init(s: State) {
    s.pin == "" && s.checked.None? && s.dialLock.None? && s.pcs == map[]
  }

  ghost predicate IsRun(states: seq<State>, steps: seq<Step>, cfg: Config) {
    && |states| == |steps| + 1 && Init(states[0])
    && forall i :: 0 <= i < |steps| ==> Enabled(states[i], steps[i]) && states[i + 1] == Next(states[i], steps[i], cfg)
  }

  /** The dials of the first n steps of a run. */
  function Dials(states: seq<State>, steps: seq<Step>, n: nat): seq<Dial>
    requires |states| == |steps| + 1 && n < |states|
  {
    if n == 0 then [] else DialsAfter(Dials(states, steps, n - 1), states[n - 1], steps[n - 1], states[n])
  }

  lemma {:induction false} RunKeepsInv(states: seq<State>, steps: seq<Step>, cfg: Config, n: nat)
    requires IsRun(states, steps, cfg) && n < |states|
    ensures Inv(states[n], Dials(states, steps, n), cfg)
  {
    if n > 0 {
      RunKeepsInv(states, steps, cfg, n - 1);
      StepKeepsInv(states[n - 1], Dials(states, steps, n - 1), steps[n - 1], cfg);
    }
  }

  /** At most one self-dial is in progress, however many callers there are. */
  lemma SingleFlight(states: seq<State>, steps: seq<Step>, cfg: Config, n: nat, a: Op, b: Op)
    requires IsRun(states, steps, cfg) && n < |states|
    requires a in states[n].pcs && b in states[n].pcs && states[n].pcs[a].Dialing? && states[n].pcs[b].Dialing?
    ensures a == b
  {
    RunKeepsInv(states, steps, cfg, n);
  }

  /* ---------------------------------------------------------------- what is answered */

  /** What the last dial that succeeded has read; a failed one changes nothing. */
  function LastRead(steps: seq<Step>): string {
    if steps == [] then ""
    else
      var last := steps[|steps| - 1];
      if last.DialEnds? && last.result.Some? then last.result.value else LastRead(steps[..|steps| - 1])
  }

  /** When the last dial ended, successful or not. */
  function LastChecked(states: seq<State>, steps: seq<Step>): Option<int>
    requires |steps| <= |states|
    decreases |steps|
  {
    if steps == [] then None
    else if steps[|steps| - 1].DialEnds? then Some(states[|steps| - 1].now)
    else LastChecked(states, steps[..|steps| - 1])
  }

  /** The cached pin is always the one read last: a new one replaces an older one, a failure keeps it. */
  lemma {:induction false} PinIsLastRead(states: seq<State>, steps: seq<Step>, cfg: Config, n: nat)
    requires IsRun(states, steps, cfg) && n < |states|
    ensures states[n].pin == LastRead(steps[..n]) && states[n].checked == LastChecked(states, steps[..n])
  {
    if n > 0 {
      PinIsLastRead(states, steps, cfg, n - 1);
      assert steps[..n][..n - 1] == steps[..n - 1];
    }
  }

  /** The pin is the cached one, and the last dial ended less than its waiting time ago. */
  predicate FreshAt(s: State, cfg: Config, pin: string) {
    && s.pin == pin && s.checked.Some?
    && s.now - s.checked.value < (if pin == "" then Backoff(cfg) else Refresh(cfg))
  }

  predicate HasAnswer(pc: Pc) {
    pc.Releasing? || pc.Answered?
  }

  /**
   Whatever a Status call answers was the cached pin at some moment `i` between its start and its end, and
   at that moment the last dial was not older than the refresh interval, or the backoff if there is no pin.
   */
  lemma {:induction false} StatusAnswerIsFresh(
    states: seq<State>, steps: seq<Step>, cfg: Config, op: Op, j: nat, m: nat) returns (i: nat)
    requires IsRun(states, steps, cfg) && j < m < |states| && steps[j] == Status(op)
    ensures op in states[m].pcs && j <= i <= m
    ensures var pc := states[m].pcs[op];
            if HasAnswer(pc) then FreshAt(states[i], cfg, pc.pin) else pc.kind.Request?
    decreases m
  {
    i := j;
    if j + 1 < m {
      i := StatusAnswerIsFresh(states, steps, cfg, op, j, m - 1);
      var s, step := states[m - 1], steps[m - 1];
      assert Enabled(s, step) && states[m] == Next(s, step, cfg);
      if HasAnswer(states[m].pcs[op]) && !HasAnswer(s.pcs[op]) {
        i := if step.Recheck? then m - 1 else m;
      }
    }
  }

  /** A scheduled refresh never answers without a dial of its own, ended by step `i`. */
  lemma {:induction false} ScheduledRefreshDials(
    states: seq<State>, steps: seq<Step>, cfg: Config, op: Op, j: nat, m: nat) returns (i: nat)
    requires IsRun(states, steps, cfg) && j < m < |states| && steps[j] == ScheduledRefresh(op)
    ensures op in states[m].pcs
    ensures var pc := states[m].pcs[op];
            if HasAnswer(pc) then j < i < m && steps[i].DialEnds? && steps[i].op == op else pc.kind.Scheduled?
    decreases m
  {
    i := j;
    if j + 1 < m {
      i := ScheduledRefreshDials(states, steps, cfg, op, j, m - 1);
      var s, step := states[m - 1], steps[m - 1];
      assert Enabled(s, step) && states[m] == Next(s, step, cfg);
      if HasAnswer(states[m].pcs[op]) && !HasAnswer(s.pcs[op]) {
        i := m - 1;
      }
    }
  }

  /** A request-driven dial starts only when the last dial, of either kind, ended long enough ago. */
  lemma RequestDialsAreDue(states: seq<State>, steps: seq<Step>, cfg: Config, n: nat, i: nat, j: nat)
    requires IsRun(states, steps, cfg) && n < |states| && i < j < |Dials(states, steps, n)|
    requires Dials(states, steps, n)[j].kind.Request?
    ensures
      var d, previous := Dials(states, steps, n)[j], Dials(states, steps, n)[i];
      && previous.end.Some?
      && d.start - previous.end.value >= if d.pin == "" then Backoff(cfg) else Refresh(cfg)
  {
    RunKeepsInv(states, steps, cfg, n);
  }

  lemma {:induction false} PinStays(states: seq<State>, steps: seq<Step>, cfg: Config, n: nat, m: nat)
    requires IsRun(states, steps, cfg) && n <= m < |states| && states[n].pin != ""
    ensures states[m].pin != ""
    decreases m - n
  {
    if n < m {
      PinStays(states, steps, cfg, n, m - 1);
      RunKeepsInv(states, steps, cfg, m - 1);
      StepKeepsInv(states[m - 1], Dials(states, steps, m - 1), steps[m - 1], cfg);
    }
  }

  lemma {:induction false} KnewIsRemembered(states: seq<State>, steps: seq<Step>, cfg: Config, op: Op, j: nat, m: nat)
    requires IsRun(states, steps, cfg) && j < m < |states| && steps[j] == Status(op)
    ensures op in states[m].pcs && states[m].pcs[op].knew == (states[j].pin != "")
    decreases m - j
  {
    if m > j + 1 {
      KnewIsRemembered(states, steps, cfg, op, j, m - 1);
      assert Enabled(states[m - 1], steps[m - 1]);
    }
  }

  /** Once a pin was read, no later Status call answers that there is none. */
  lemma StatusNeverLosesThePin(states: seq<State>, steps: seq<Step>, cfg: Config, op: Op, i: nat, j: nat, m: nat)
    requires IsRun(states, steps, cfg) && i <= j < m < |states| && states[i].pin != ""
    requires steps[j] == Status(op) && op in states[m].pcs && states[m].pcs[op].Answered?
    ensures states[m].pcs[op].pin != ""
  {
    PinStays(states, steps, cfg, i, j);
    KnewIsRemembered(states, steps, cfg, op, j, m);
    RunKeepsInv(states, steps, cfg, m);
  }

  /* ---------------------------------------------------------------- load */

  function MinWait(cfg: Config): int {
    if Refresh(cfg) <= Backoff(cfg) then Refresh(cfg) else Backoff(cfg)
  }

  /** Request-driven dials among the first n, apart from the very first dial. */
  function Requested(dials: seq<Dial>): nat {
    if |dials| <= 1 then 0
    else Requested(dials[..|dials| - 1]) + (if dials[|dials| - 1].kind.Request? then 1 else 0)
  }

  /** Between the first and the last dial of a history there is the waiting time of each request-driven one. */
  lemma {:induction false} RequestsTakeTime(dials: seq<Dial>, cfg: Config)
    requires WellSpaced(dials, cfg) && dials != []
    ensures dials[|dials| - 1].start - dials[0].start >= Requested(dials) * MinWait(cfg)
  {
    if |dials| > 1 {
      var n := |dials| - 1;
      assert forall i :: 0 <= i < n ==> dials[..n][i] == dials[i];
      RequestsTakeTime(dials[..n], cfg);
      assert MinWait(cfg) <= Wait(cfg, dials[n].pin);
      assert Spaced(dials[n - 1], dials[n], cfg);
      assert (Requested(dials[..n]) + 1) * MinWait(cfg) == Requested(dials[..n]) * MinWait(cfg) + MinWait(cfg);
    }
  }

  /**
   Hence the outgoing load is bounded whatever the callers do: within any stretch of dials i..j of a run,
   the request-driven ones after the first number at most its duration divided by the shorter wait.
   */
  lemma RequestLoadIsBounded(states: seq<State>, steps: seq<Step>, cfg: Config, n: nat, i: nat, j: nat)
    requires IsRun(states, steps, cfg) && n < |states| && i < j <= |Dials(states, steps, n)|
    ensures
      var stretch := Dials(states, steps, n)[i..j];
      Requested(stretch) * MinWait(cfg) <= stretch[|stretch| - 1].start - stretch[0].start
  {
    RunKeepsInv(states, steps, cfg, n);
    var dials := Dials(states, steps, n);
    var stretch := dials[i..j];
    assert forall k :: 0 <= k < |stretch| ==> stretch[k] == dials[i + k];
    RequestsTakeTime(stretch, cfg);
  }
}
