/**
 The spool protocol: appenders and the single flusher take the spool lock for short sections, and the
 flusher sends without it. Each locked section, the parse and the answer of the server are atomic
 steps; `Next` is the step function, a run is any sequence of enabled steps.

 Excluded: crashes and file errors in the middle of a flush, where the code is best-effort.
 */
module SpoolProtocol {
  import opened Json
  import opened Spool

  /** Where the flusher stands; `Sending` and beyond hold no lock. */
  datatype Flusher =
    | Idle
    | Taken(raw: string)
    | Split(batch: seq<Event>, rest: seq<Event>)
    | Sending(batch: seq<Event>)
    | Refused(batch: seq<Event>)

  datatype State = State(file: string, flusher: Flusher)

  datatype Step = Append(ev: Event) | Take | ParseTaken | RequeueRest | SendSucceeds | SendFails | RequeueBatch

  predicate Enabled(s: State, step: Step) {
    match step
    case Append(_) => true
    case Take => s.flusher.Idle? && s.file != ""
    case ParseTaken => s.flusher.Taken?
    case RequeueRest => s.flusher.Split?
    case SendSucceeds => s.flusher.Sending?
    case SendFails => s.flusher.Sending?
    case RequeueBatch => s.flusher.Refused?
  }

  /** What the flusher does with the events it parsed. */
  function Batched(events: seq<Event>): Flusher {
    if events == [] then Idle
    else if |events| > MAX_FLUSH_BATCH then Split(events[..MAX_FLUSH_BATCH], events[MAX_FLUSH_BATCH..])
    else Sending(events)
  }

  function Next(s: State, step: Step): State
    requires Enabled(s, step)
  {
    match step
    case Append(ev) =>
      if ByteLen(s.file) > MAX_SPOOL_BYTES then s
      else s.(file := s.file + MarshalLines([ev]))
    case Take => s.(file := "", flusher := Taken(s.file))
    case ParseTaken => s.(flusher := Batched(ParseSpool(s.flusher.raw)))
    case RequeueRest => s.(file := MarshalLines(s.flusher.rest) + s.file, flusher := Sending(s.flusher.batch))
    case SendSucceeds => s.(flusher := Idle)
    case SendFails => s.(flusher := Refused(s.flusher.batch))
    case RequeueBatch => s.(file := MarshalLines(s.flusher.batch) + s.file, flusher := Idle)
  }

  /** The events the flusher has taken and neither delivered nor put back. */
  function InFlight(f: Flusher): seq<Event> {
    match f
    case Idle => []
    case Taken(raw) => ParseSpool(raw)
    case Split(batch, rest) => batch + rest
    case Sending(batch) => batch
    case Refused(batch) => batch
  }

  ghost predicate AllFit(es: seq<Event>) {
    forall ev :: ev in es ==> Fits(ev)
  }

  /** The text is exactly the lines of the events it holds. */
  ghost predicate Framed(raw: string) {
    AllFit(ParseSpool(raw)) && MarshalLines(ParseSpool(raw)) == raw
  }

  /** What the spool and the flusher hold, in order. */
  function Held(s: State): seq<Event> {
    InFlight(s.flusher) + ParseSpool(s.file)
  }

  /** The events a step takes in: an append that finds the file within its limit. */
  function Received(s: State, step: Step): seq<Event> {
    if step.Append? && ByteLen(s.file) <= MAX_SPOOL_BYTES then [step.ev] else []
  }

  /** The events a step delivers: the batch being sent when the server answers with success. */
  function Delivered(s: State, step: Step): seq<Event> {
    if step.SendSucceeds? && s.flusher.Sending? then s.flusher.batch else []
  }

  ghost predicate Inv(s: State) {
    Framed(s.file) && (s.flusher.Taken? ==> Framed(s.flusher.raw)) && AllFit(InFlight(s.flusher))
  }

  lemma FramedLines(es: seq<Event>)
    requires AllFit(es)
    ensures Framed(MarshalLines(es)) && ParseSpool(MarshalLines(es)) == es
  {
    FramingRoundTrip(es);
  }

  /** Writing events in front of a framed file keeps it framed; this is the requeue. */
  lemma FramedBehind(es: seq<Event>, raw: string)
    requires AllFit(es) && Framed(raw)
    ensures Framed(MarshalLines(es) + raw) && ParseSpool(MarshalLines(es) + raw) == es + ParseSpool(raw)
  {
    ParseBehindEvents(es, raw);
    MarshalConcat(es, ParseSpool(raw));
  }

  /** Appending events to a framed file keeps it framed. */
  lemma FramedBefore(raw: string, es: seq<Event>)
    requires AllFit(es) && Framed(raw)
    ensures Framed(raw + MarshalLines(es)) && ParseSpool(raw + MarshalLines(es)) == ParseSpool(raw) + es
  {
    FramedLines(es);
    FramedBehind(ParseSpool(raw), MarshalLines(es));
  }

  /** What a step must do: keep the framing, and lose, duplicate or reorder nothing. */
  ghost predicate Conserves(s: State, step: Step)
    requires Enabled(s, step)
  {
    Inv(Next(s, step)) && Delivered(s, step) + Held(Next(s, step)) == Held(s) + Received(s, step)
  }

  lemma Assoc(a: seq<Event>, b: seq<Event>, c: seq<Event>)
    ensures a + (b + c) == a + b + c
  {
  }

  lemma NothingElse(a: seq<Event>)
    ensures [] + a == a && a + [] == a
  {
  }

  lemma PartsFit(a: seq<Event>, b: seq<Event>)
    requires AllFit(a + b)
    ensures AllFit(a) && AllFit(b)
  {
    assert forall ev :: ev in a ==> ev in a + b;
    assert forall ev :: ev in b ==> ev in a + b;
  }

  lemma AppendConserves(s: State, ev: Event)
    requires Inv(s) && Fits(ev)
    ensures Conserves(s, Append(ev))
  {
    NothingElse(Held(Next(s, Append(ev))));
    NothingElse(Held(s));
    if ByteLen(s.file) <= MAX_SPOOL_BYTES {
      AppendedConserves(s.file, InFlight(s.flusher), ev);
    }
  }

  lemma AppendedConserves(file: string, inFlight: seq<Event>, ev: Event)
    requires Framed(file) && Fits(ev)
    ensures Framed(file + MarshalLines([ev]))
    ensures inFlight + ParseSpool(file + MarshalLines([ev])) == inFlight + ParseSpool(file) + [ev]
  {
    FramedBefore(file, [ev]);
    Assoc(inFlight, ParseSpool(file), [ev]);
  }

  lemma TakeConserves(s: State)
    requires Inv(s) && Enabled(s, Take)
    ensures Conserves(s, Take)
  {
    FramedLines([]);
    assert MarshalLines([]) == "";
    NothingElse(ParseSpool(s.file));
  }

  /** Splitting off a batch keeps all events and their order. */
  lemma BatchedHolds(es: seq<Event>)
    ensures InFlight(Batched(es)) == es && !Batched(es).Taken?
    ensures Batched(es).Sending? || Batched(es).Split? ==> 0 < |Batched(es).batch| <= MAX_FLUSH_BATCH
    ensures Batched(es).Split? <==> |es| > MAX_FLUSH_BATCH
    ensures Batched(es).Split? ==> |Batched(es).batch| == MAX_FLUSH_BATCH
  {
  }

  lemma ParseConserves(s: State)
    requires Inv(s) && Enabled(s, ParseTaken)
    ensures Conserves(s, ParseTaken)
  {
    BatchedHolds(ParseSpool(s.flusher.raw));
    NothingElse(Held(s));
  }

  /** Putting events back in front of the file: what was in flight is first in the file. */
  lemma RequeueConserves(s: State, kept: seq<Event>, back: seq<Event>, f: Flusher)
    requires Inv(s) && InFlight(s.flusher) == kept + back
    requires InFlight(f) == kept && !f.Taken?
    ensures
      var s' := s.(file := MarshalLines(back) + s.file, flusher := f);
      Inv(s') && Held(s') == Held(s) && ParseSpool(s'.file) == back + ParseSpool(s.file)
  {
    PartsFit(kept, back);
    FramedBehind(back, s.file);
    Assoc(kept, back, ParseSpool(s.file));
  }

  lemma SendSucceedsConserves(s: State)
    requires Inv(s) && Enabled(s, SendSucceeds)
    ensures Conserves(s, SendSucceeds)
  {
    NothingElse(ParseSpool(s.file));
    NothingElse(Held(s));
  }

  lemma RequeueRestConserves(s: State)
    requires Inv(s) && Enabled(s, RequeueRest)
    ensures Conserves(s, RequeueRest)
  {
    RequeueConserves(s, s.flusher.batch, s.flusher.rest, Sending(s.flusher.batch));
    NothingElse(Held(s));
  }

  lemma RequeueBatchConserves(s: State)
    requires Inv(s) && Enabled(s, RequeueBatch)
    ensures Conserves(s, RequeueBatch)
  {
    NothingElse(s.flusher.batch);
    RequeueConserves(s, [], s.flusher.batch, Idle);
    NothingElse(Held(s));
  }

  lemma StepConserves(s: State, step: Step)
    requires Inv(s) && Enabled(s, step)
    requires step.Append? ==> Fits(step.ev)
    ensures Conserves(s, step)
  {
    match step
    case Append(ev) => AppendConserves(s, ev);
    case Take => TakeConserves(s);
    case ParseTaken => ParseConserves(s);
    case RequeueRest => RequeueRestConserves(s);
    case SendSucceeds => SendSucceedsConserves(s);
    case SendFails => NothingElse(Held(s));
    case RequeueBatch => RequeueBatchConserves(s);
  }

  /** A batch that was not delivered goes back in front of whatever the file holds by then. */
  lemma FailedBatchIsPutBack(s: State)
    requires Inv(s) && s.flusher.Sending?
    ensures
      var refused := Next(s, SendFails);
      && refused == State(s.file, Refused(s.flusher.batch)) && Enabled(refused, RequeueBatch)
    ensures forall file: string :: Framed(file) ==>
              var back := Next(State(file, Refused(s.flusher.batch)), RequeueBatch);
              back.flusher.Idle? && ParseSpool(back.file) == s.flusher.batch + ParseSpool(file)
  {
    forall file: string | Framed(file)
      ensures
        var back := Next(State(file, Refused(s.flusher.batch)), RequeueBatch);
        back.flusher.Idle? && ParseSpool(back.file) == s.flusher.batch + ParseSpool(file)
    {
      ParseBehindEvents(s.flusher.batch, file);
    }
  }

  /* ---------------------------------------------------------------- accounts over runs */

  /** What the first `n` steps of a run contribute, in order. */
  function Total<S, T, E>(f: (S, T) -> seq<E>, states: seq<S>, steps: seq<T>, n: nat): seq<E>
    requires n <= |steps| < |states|
  {
    if n == 0 then [] else Total(f, states, steps, n - 1) + f(states[n - 1], steps[n - 1])
  }

  /** A step relation that keeps an invariant and an account: what goes out and is held was held or comes in. */
  ghost predicate KeepsAccount<S(!new), T(!new), E>(
    inv: S -> bool, leads: (S, T, S) -> bool, held: S -> seq<E>, received: (S, T) -> seq<E>,
    delivered: (S, T) -> seq<E>)
  {
    forall s, t, s' :: inv(s) && leads(s, t, s') ==>
      inv(s') && delivered(s, t) + held(s') == held(s) + received(s, t)
  }

  lemma Regroup<E>(
    all: seq<E>, out: seq<E>, held': seq<E>, held: seq<E>, in_: seq<E>, start: seq<E>, received: seq<E>)
    requires out + held' == held + in_ && all + held == start + received
    ensures all + out + held' == start + (received + in_)
  {
    assert all + out + held' == all + (out + held');
    assert all + held + in_ == all + (held + in_);
    assert start + received + in_ == start + (received + in_);
  }

  /** Over whole runs the account is kept too. */
  lemma {:induction false} AccountOverRun<S(!new), T(!new), E>(
    inv: S -> bool, leads: (S, T, S) -> bool, held: S -> seq<E>, received: (S, T) -> seq<E>,
    delivered: (S, T) -> seq<E>, states: seq<S>, steps: seq<T>, n: nat)
    requires KeepsAccount(inv, leads, held, received, delivered)
    requires n <= |steps| && |states| == |steps| + 1 && inv(states[0])
    requires forall i :: 0 <= i < |steps| ==> leads(states[i], steps[i], states[i + 1])
    ensures inv(states[n])
    ensures Total(delivered, states, steps, n) + held(states[n])
            == held(states[0]) + Total(received, states, steps, n)
  {
    if n > 0 {
      AccountOverRun(inv, leads, held, received, delivered, states, steps, n - 1);
      var s, t, s' := states[n - 1], steps[n - 1], states[n];
      assert leads(s, t, states[n - 1 + 1]);
      Regroup(Total(delivered, states, steps, n - 1), delivered(s, t), held(s'), held(s), received(s, t),
              held(states[0]), Total(received, states, steps, n - 1));
    }
  }

  /** One step of an interleaving; an appended event fits the scanner. */
  ghost predicate Leads(s: State, step: Step, s': State) {
    Enabled(s, step) && s' == Next(s, step) && (step.Append? ==> Fits(step.ev))
  }

  /** An interleaving, from a file of whole events on, as an earlier process may have left it behind. */
  ghost predicate IsRun(states: seq<State>, steps: seq<Step>) {
    && |states| == |steps| + 1 && states[0].flusher.Idle? && Framed(states[0].file)
    && forall i :: 0 <= i < |steps| ==> Leads(states[i], steps[i], states[i + 1])
  }

  lemma StepsKeepAccount()
    ensures KeepsAccount(s => Inv(s), (s, t, s') => Leads(s, t, s'), Held, Received, Delivered)
  {
    forall s, t, s' | Inv(s) && Leads(s, t, s')
      ensures Inv(s') && Delivered(s, t) + Held(s') == Held(s) + Received(s, t)
    {
      StepConserves(s, t);
    }
  }

  /** The events accepted in the first `n` steps: those of the appends that were not dropped. */
  function AllReceived(states: seq<State>, steps: seq<Step>, n: nat): seq<Event>
    requires n <= |steps| < |states|
  {
    Total(Received, states, steps, n)
  }

  /** The events delivered in them: the batches that were being sent when the server acknowledged. */
  function AllDelivered(states: seq<State>, steps: seq<Step>, n: nat): seq<Event>
    requires n <= |steps| < |states|
  {
    Total(Delivered, states, steps, n)
  }

  /**
   Main result: in every state of every interleaving the delivered events, what is in flight or not yet
   put back, and the file make up what the file held at the start and what was accepted since, in order.
   */
  lemma EveryRunConserves(states: seq<State>, steps: seq<Step>, n: nat)
    requires IsRun(states, steps) && n < |states|
    ensures Inv(states[n])
    ensures AllDelivered(states, steps, n) + InFlight(states[n].flusher) + ParseSpool(states[n].file)
            == ParseSpool(states[0].file) + AllReceived(states, steps, n)
  {
    StepsKeepAccount();
    AccountOverRun(s => Inv(s), (s, t, s') => Leads(s, t, s'), Held, Received, Delivered, states, steps, n);
    NothingElse(ParseSpool(states[0].file));
    Assoc(AllDelivered(states, steps, n), InFlight(states[n].flusher), ParseSpool(states[n].file));
  }

  /** In particular, an idle flusher with an empty file has delivered everything, once and in order. */
  lemma EmptySpoolDeliveredAll(states: seq<State>, steps: seq<Step>, n: nat)
    requires IsRun(states, steps) && n < |states|
    requires states[n].flusher.Idle? && states[n].file == ""
    ensures AllDelivered(states, steps, n) == ParseSpool(states[0].file) + AllReceived(states, steps, n)
  {
    EveryRunConserves(states, steps, n);
    FramedLines([]);
    assert MarshalLines([]) == "";
    NothingElse(AllDelivered(states, steps, n));
  }

  /* ---------------------------------------------------------------- the agent */

  /** The first batch of the events in a file. */
  function FirstBatch(es: seq<Event>): seq<Event> {
    if |es| > MAX_FLUSH_BATCH then es[..MAX_FLUSH_BATCH] else es
  }

  /** The flusher after it has taken a nonempty file and put back what exceeds a batch. */
  function AboutToSend(s: State): State
    requires s.flusher.Idle? && s.file != ""
  {
    var split := Next(Next(s, Take), ParseTaken);
    if split.flusher.Split? then Next(split, RequeueRest) else split
  }

  /** What is left of the events of a file when the first batch is taken. */
  function Behind(es: seq<Event>): seq<Event> {
    if |es| > MAX_FLUSH_BATCH then es[MAX_FLUSH_BATCH..] else []
  }

  lemma FirstBatchIsSent(s: State)
    requires Framed(s.file) && s.flusher.Idle? && s.file != ""
    ensures
      var events := ParseSpool(s.file);
      events != [] && AboutToSend(s) == State(MarshalLines(Behind(events)), Sending(FirstBatch(events)))
  {
    assert MarshalLines([]) == "";
    var rest := MarshalLines(Behind(ParseSpool(s.file)));
    assert rest + "" == rest;
  }

  lemma FrontAndBehind(raw: string)
    requires Framed(raw)
    ensures
      var events := ParseSpool(raw);
      && MarshalLines(FirstBatch(events)) + MarshalLines(Behind(events)) == raw
      && FirstBatch(events) + ParseSpool(MarshalLines(Behind(events))) == events
  {
    var events := ParseSpool(raw);
    if |events| > MAX_FLUSH_BATCH {
      RequeuedTwice(raw, events);
    } else {
      assert MarshalLines([]) == "";
      assert raw + "" == raw;
      FramedLines([]);
      NothingElse(events);
    }
  }

  lemma AfterSending(rest: string, batch: seq<Event>)
    ensures
      var sending := State(rest, Sending(batch));
      && Next(sending, SendSucceeds) == State(rest, Idle)
      && Next(Next(sending, SendFails), RequeueBatch) == State(MarshalLines(batch) + rest, Idle)
  {
  }

  /** Without appends in between a flush sends the first batch; a failed one leaves the file as it was. */
  lemma LoneFlush(s: State)
    requires Framed(s.file) && s.flusher.Idle? && s.file != ""
    ensures
      var events, sending := ParseSpool(s.file), AboutToSend(s);
      && events != [] && sending.flusher == Sending(FirstBatch(events))
      && FirstBatch(events) + ParseSpool(sending.file) == events
      && Next(sending, SendSucceeds) == State(sending.file, Idle)
      && Next(Next(sending, SendFails), RequeueBatch) == s
  {
    FirstBatchIsSent(s);
    FrontAndBehind(s.file);
    var events := ParseSpool(s.file);
    AfterSending(MarshalLines(Behind(events)), FirstBatch(events));
  }

  lemma RequeuedTwice(raw: string, es: seq<Event>)
    requires Framed(raw) && es == ParseSpool(raw) && |es| > MAX_FLUSH_BATCH
    ensures MarshalLines(es[..MAX_FLUSH_BATCH]) + MarshalLines(es[MAX_FLUSH_BATCH..]) == raw
    ensures Framed(MarshalLines(es[MAX_FLUSH_BATCH..]))
    ensures ParseSpool(MarshalLines(es[MAX_FLUSH_BATCH..])) == es[MAX_FLUSH_BATCH..]
  {
    MarshalConcat(es[..MAX_FLUSH_BATCH], es[MAX_FLUSH_BATCH..]);
    assert es[..MAX_FLUSH_BATCH] + es[MAX_FLUSH_BATCH..] == es;
    assert forall ev :: ev in es[MAX_FLUSH_BATCH..] ==> ev in es;
    FramedLines(es[MAX_FLUSH_BATCH..]);
  }

  /** The spool of the agent when nobody interferes with a flush. */
  class SpoolFile {
    var file: string

    constructor ()
      ensures file == "" && Framed(file)
    {
      file := "";
      FramedLines([]);
      assert MarshalLines([]) == "";
    }

    /** Appends one line unless the file is over its limit; then the event is dropped. */
    method Append(ev: Event)
      requires Framed(file) && Fits(ev)
      modifies this
      ensures Framed(file)
      ensures file == if ByteLen(old(file)) > MAX_SPOOL_BYTES then old(file) else old(file) + MarshalLines([ev])
      ensures ByteLen(old(file)) <= MAX_SPOOL_BYTES ==> ParseSpool(file) == ParseSpool(old(file)) + [ev]
    {
      if ByteLen(file) > MAX_SPOOL_BYTES {
        return;
      }
      FramedBefore(file, [ev]);
      var line := MustMarshalLines([ev]);
      file := file + line;
    }

    method Requeue(lines: string)
      modifies this
      ensures file == lines + old(file)
    {
      if lines != "" {
        file := lines + file;
      }
    }

    /**
     One flush; `delivered` is the answer of the server. A failed flush leaves the file as it was,
     byte for byte; a successful one removes exactly the batch that was sent.
     */
    method Flush(delivered: bool) returns (sent: seq<Event>)
      requires Framed(file)
      modifies this
      ensures Framed(file)
      ensures sent == if delivered then FirstBatch(ParseSpool(old(file))) else []
      ensures !delivered ==> file == old(file)
      ensures sent + ParseSpool(file) == ParseSpool(old(file))
    {
      sent := [];
      if file == "" {
        assert FirstBatch(ParseSpool(file)) == [];
        return;
      }
      ghost var was := file;
      var raw := file;
      file := "";
      FramedLines([]);
      assert MarshalLines([]) == "" && Framed("") && ParseSpool("") == [];
      var events := Parse(raw);
      if |events| == 0 {
        return;
      }
      var batch := events;
      if |events| > MAX_FLUSH_BATCH {
        RequeuedTwice(raw, events);
        var rest := MustMarshalLines(events[MAX_FLUSH_BATCH..]);
        Requeue(rest);
        assert rest + "" == rest;
        batch := events[..MAX_FLUSH_BATCH];
        assert batch + events[MAX_FLUSH_BATCH..] == events;
      }
      if !delivered {
        var lines := MustMarshalLines(batch);
        Requeue(lines);
        assert lines + "" == lines;
        assert file == was;
        return;
      }
      sent := batch;
    }
  }
}
