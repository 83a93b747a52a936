/**
 The session spool of the host agent (internal/agentd/session.go): a file of JSON lines that many
 appenders and one flusher share.

 This module is the framing: events to lines and back, including the line limit of the scanner. The
 protocol of appenders and flusher is in SpoolProtocol.
 */
module Spool {
  import opened Common
  import opened Json
  import opened Lines

  type Int64 = x: int | -0x8000_0000_0000_0000 <= x < 0x8000_0000_0000_0000

  /** sessionEventWire; the timestamp is its RFC 3339 text. */
  datatype Event = Event(
    phase: string, service: string, localUser: string, remoteUser: string, remoteAddr: string,
    tty: string, serial: Int64, keyId: string, command: string, occurredAt: string)

  const MAX_SPOOL_BYTES: nat := 1048576
  const MAX_FLUSH_BATCH: nat := 500

  /* ---------------------------------------------------------------- one event */

  function Members(ev: Event): seq<Member> {
    [ Member("phase", Str(ev.phase)),
      Member("service", Str(ev.service)),
      Member("local_user", Str(ev.localUser)),
      Member("remote_user", Str(ev.remoteUser)),
      Member("remote_addr", Str(ev.remoteAddr)),
      Member("tty", Str(ev.tty)),
      Member("serial", Num(ev.serial)),
      Member("key_id", Str(ev.keyId)),
      Member("command", Str(ev.command)),
      Member("occurred_at", Str(ev.occurredAt)) ]
  }

  function Marshal(ev: Event): string {
    WriteObject(Members(ev))
  }

  /** The value of the last member with that name. */
  function Find(ms: seq<Member>, name: string): Option<Value> {
    if ms == [] then None
    else if ms[|ms| - 1].name == name then Some(ms[|ms| - 1].value)
    else Find(ms[..|ms| - 1], name)
  }

  /** A string field: absent members leave the zero value, other types are an error. */
  function StrField(ms: seq<Member>, name: string): Option<string> {
    match Find(ms, name)
    case None => Some("")
    case Some(Str(s)) => Some(s)
    case Some(Num(_)) => None
  }

  function IntField(ms: seq<Member>, name: string): Option<Int64> {
    match Find(ms, name)
    case None => Some(0)
    case Some(Str(_)) => None
    case Some(Num(n)) => if -0x8000_0000_0000_0000 <= n < 0x8000_0000_0000_0000 then Some(n) else None
  }

  function FromMembers(ms: seq<Member>): Option<Event> {
    match (StrField(ms, "phase"), StrField(ms, "service"), StrField(ms, "local_user"),
           StrField(ms, "remote_user"), StrField(ms, "remote_addr"), StrField(ms, "tty"),
           IntField(ms, "serial"), StrField(ms, "key_id"), StrField(ms, "command"),
           StrField(ms, "occurred_at"))
    case (Some(a), Some(b), Some(c), Some(d), Some(e), Some(f), Some(g), Some(h), Some(i), Some(j)) =>
      Some(Event(a, b, c, d, e, f, g, h, i, j))
    case _ => None
  }

  function Unmarshal(line: string): Option<Event> {
    match ReadObject(line)
    case None => None
    case Some((ms, rest)) => if rest == "" then FromMembers(ms) else None
  }

  predicate DistinctNames(ms: seq<Member>) {
    forall i, j :: 0 <= i < j < |ms| ==> ms[i].name != ms[j].name
  }

  lemma {:induction false} FindByPosition(ms: seq<Member>, i: nat)
    requires i < |ms| && DistinctNames(ms)
    ensures Find(ms, ms[i].name) == Some(ms[i].value)
  {
    if i < |ms| - 1 {
      FindByPosition(ms[..|ms| - 1], i);
    }
  }

  lemma EventNamesDistinct(ev: Event)
    ensures DistinctNames(Members(ev))
  {
    var ms := Members(ev);
    // Names of equal length differ in their first or eighth character.
    forall i, j | 0 <= i < j < |ms|
      ensures ms[i].name != ms[j].name
    {
      if |ms[i].name| == |ms[j].name| {
        assert ms[i].name[0] != ms[j].name[0] || ms[i].name[7] != ms[j].name[7];
      }
    }
  }

  lemma StrByPosition(ms: seq<Member>, i: nat, name: string, s: string)
    requires DistinctNames(ms) && i < |ms| && ms[i] == Member(name, Str(s))
    ensures StrField(ms, name) == Some(s)
  {
    FindByPosition(ms, i);
  }

  lemma IntByPosition(ms: seq<Member>, i: nat, name: string, n: Int64)
    requires DistinctNames(ms) && i < |ms| && ms[i] == Member(name, Num(n))
    ensures IntField(ms, name) == Some(n)
  {
    FindByPosition(ms, i);
  }

  lemma MembersRoundTrip(ev: Event)
    ensures FromMembers(Members(ev)) == Some(ev)
  {
    var ms := Members(ev);
    EventNamesDistinct(ev);
    StrByPosition(ms, 0, "phase", ev.phase);
    StrByPosition(ms, 1, "service", ev.service);
    StrByPosition(ms, 2, "local_user", ev.localUser);
    StrByPosition(ms, 3, "remote_user", ev.remoteUser);
    StrByPosition(ms, 4, "remote_addr", ev.remoteAddr);
    StrByPosition(ms, 5, "tty", ev.tty);
    IntByPosition(ms, 6, "serial", ev.serial);
    StrByPosition(ms, 7, "key_id", ev.keyId);
    StrByPosition(ms, 8, "command", ev.command);
    StrByPosition(ms, 9, "occurred_at", ev.occurredAt);
  }

  lemma EventRoundTrip(ev: Event)
    ensures Unmarshal(Marshal(ev)) == Some(ev)
  {
    ReadWrittenObject(Members(ev), "");
    assert WriteObject(Members(ev)) + "" == WriteObject(Members(ev));
    MembersRoundTrip(ev);
  }

  /* ---------------------------------------------------------------- lines */

  /** bytes.TrimSpace removes Unicode white space at both ends. */
  predicate IsSpace(c: char) {
    var n := c as int;
    || n == 32 || 9 <= n <= 13 || n == 0x85 || n == 0xA0 || n == 0x1680
    || 0x2000 <= n <= 0x200A || n == 0x2028 || n == 0x2029 || n == 0x202F || n == 0x205F || n == 0x3000
  }

  function TrimSpace(s: string): string {
    if s != "" && IsSpace(s[0]) then TrimSpace(s[1..])
    else if s != "" && IsSpace(s[|s| - 1]) then TrimSpace(s[..|s| - 1])
    else s
  }

  /** Blank and unreadable lines are skipped. */
  function ParseLine(line: string): seq<Event> {
    var trimmed := TrimSpace(line);
    if trimmed == "" then []
    else
      match Unmarshal(trimmed)
      case None => []
      case Some(ev) => [ev]
  }

  function ParseSpool(raw: string): seq<Event> {
    Decode(ParseLine, ScanLines(raw))
  }

  method Parse(raw: string) returns (events: seq<Event>)
    ensures events == ParseSpool(raw)
  {
    events := [];
    var rest := raw;
    while rest != ""
      invariant events + ParseSpool(rest) == ParseSpool(raw)
      decreases |rest|
    {
      var line := rest[..LineEnd(rest)];
      if Overlong(line) {
        return;
      }
      assert ScanLines(rest)[1..] == ScanLines(AfterLine(rest));
      events := events + ParseLine(line);
      rest := AfterLine(rest);
    }
  }

  function MarshalLines(es: seq<Event>): string {
    JoinLines(Encode(Marshal, es))
  }

  lemma MarshalConcat(es: seq<Event>, fs: seq<Event>)
    ensures MarshalLines(es + fs) == MarshalLines(es) + MarshalLines(fs)
  {
    EncodeConcat(Marshal, es, fs);
  }

  lemma MarshalOneMore(es: seq<Event>, i: nat)
    requires i < |es|
    ensures MarshalLines(es[..i + 1]) == MarshalLines(es[..i]) + (Marshal(es[i]) + [NEWLINE])
  {
    var before, ev := es[..i], es[i];
    assert es[..i + 1] == before + [ev];
    EncodeOne(Marshal, ev);
    MarshalConcat(before, [ev]);
  }

  method MustMarshalLines(es: seq<Event>) returns (buf: string)
    ensures buf == MarshalLines(es)
  {
    buf := "";
    for i := 0 to |es|
      invariant buf == MarshalLines(es[..i])
    {
      MarshalOneMore(es, i);
      var line := Marshal(es[i]);
      buf := buf + (line + [NEWLINE]);
    }
    assert es[..|es|] == es;
  }

  lemma MarshalledLine(ev: Event)
    ensures NEWLINE !in Marshal(ev) && ParseLine(Marshal(ev)) == [ev]
  {
    ObjectHasNoControls(Members(ev));
    EventRoundTrip(ev);
    ObjectNotTrimmed(Members(ev));
    assert Marshal(ev) != "";
  }

  lemma ObjectNotTrimmed(ms: seq<Member>)
    ensures WriteObject(ms) != "" && TrimSpace(WriteObject(ms)) == WriteObject(ms)
  {
    var line := WriteObject(ms);
    assert line[0] == '{' && line[|line| - 1] == '}';
  }

  predicate Fits(ev: Event) {
    !Overlong(Marshal(ev))
  }

  lemma MarshalIsFaithful(es: seq<Event>)
    ensures Faithful(Marshal, ParseLine, es)
  {
    forall ev | ev in es
      ensures NEWLINE !in Marshal(ev) && ParseLine(Marshal(ev)) == [ev]
    {
      MarshalledLine(ev);
    }
  }

  /** Parsing distributes over concatenation behind written events. */
  lemma ParseBehindEvents(es: seq<Event>, raw: string)
    requires forall ev :: ev in es ==> Fits(ev)
    ensures ParseSpool(MarshalLines(es) + raw) == es + ParseSpool(raw)
  {
    MarshalIsFaithful(es);
    DecodeBehind(Marshal, ParseLine, es, raw);
  }

  /**
   The framing round trip: the spool gives back the events before the first one whose line is too
   long for the scanner, so all of them exactly when every line fits.
   */
  lemma FramingRoundTrip(es: seq<Event>)
    ensures ParseSpool(MarshalLines(es)) <= es
    ensures ParseSpool(MarshalLines(es)) == es <==> forall ev :: ev in es ==> Fits(ev)
    ensures
      var n := |ParseSpool(MarshalLines(es))|;
      n < |es| ==> !Fits(es[n])
  {
    MarshalIsFaithful(es);
    var n := DecodeJoined(Marshal, ParseLine, es);
    assert n == |es| ==> es[..n] == es;
  }

  /* ---------------------------------------------------------------- which events fit */

  /**
   The request bodies that carry an event and its login report are capped (16 KiB and 4 KiB). The
   decoder replaces every byte that is not UTF-8 by U+FFFD, which takes three bytes; nothing else in a
   body grows that much.
   */
  const MAX_BODY_BYTES: nat := 16384 + 4096
  const MAX_CONTENT_BYTES: nat := 3 * MAX_BODY_BYTES

  function ContentBytes(ev: Event): nat {
    ByteLen(ev.phase) + ByteLen(ev.service) + ByteLen(ev.localUser) + ByteLen(ev.remoteUser)
    + ByteLen(ev.remoteAddr) + ByteLen(ev.tty) + ByteLen(ev.keyId) + ByteLen(ev.command)
    + ByteLen(ev.occurredAt)
  }

  function Weight(v: Value): nat {
    match v
    case Str(s) => ByteLen(s)
    case Num(_) => 4
  }

  function TotalWeight(ms: seq<Member>): nat {
    if ms == [] then 0 else 6 * (|ms[0].name| + Weight(ms[0].value)) + 6 + TotalWeight(ms[1..])
  }

  predicate Plain(m: Member) {
    && (forall i :: 0 <= i < |m.name| ==> m.name[i] as int < 0x80)
    && (m.value.Num? ==> -0x8000_0000_0000_0000 <= m.value.num < 0x8000_0000_0000_0000)
  }

  function Pow10(k: nat): nat {
    if k == 0 then 1 else 10 * Pow10(k - 1)
  }

  lemma {:induction false} DigitsLen(n: nat, k: nat)
    requires k > 0 && n < Pow10(k)
    ensures |Digits(n)| <= k
  {
    if n >= 10 {
      DigitsLen(n / 10, k - 1);
    }
  }

  lemma Pow10Of19()
    ensures Pow10(19) == 10_000_000_000_000_000_000
  {
    assert Pow10(4) == 10_000;
    assert Pow10(8) == 100_000_000 by { assert Pow10(6) == 1_000_000; }
    assert Pow10(12) == 1_000_000_000_000 by { assert Pow10(10) == 10_000_000_000; }
    assert Pow10(16) == 10_000_000_000_000_000 by { assert Pow10(14) == 100_000_000_000_000; }
    assert Pow10(18) == 1_000_000_000_000_000_000;
  }

  lemma ValueByteLen(v: Value)
    requires v.Num? ==> -0x8000_0000_0000_0000 <= v.num < 0x8000_0000_0000_0000
    ensures ByteLen(WriteValue(v)) <= 6 * Weight(v) + 2
  {
    match v
    case Str(s) => QuotedByteLen(s);
    case Num(n) =>
      Pow10Of19();
      var digits := Digits(if n < 0 then -n else n);
      DigitsLen(if n < 0 then -n else n, 19);
      assert forall i :: 0 <= i < |digits| ==> digits[i] in digits && IsDigit(digits[i]);
      AsciiByteLen(WriteValue(v));
  }

  lemma MemberByteLen(m: Member)
    requires Plain(m)
    ensures ByteLen(WriteMember(m)) <= 6 * (|m.name| + Weight(m.value)) + 5
  {
    QuotedByteLen(m.name);
    AsciiByteLen(m.name);
    ValueByteLen(m.value);
    AsciiByteLen(":");
    ByteLenConcat(Quoted(m.name) + ":", WriteValue(m.value));
    ByteLenConcat(Quoted(m.name), ":");
  }

  lemma {:induction false} MembersByteLen(ms: seq<Member>)
    requires forall i :: 0 <= i < |ms| ==> Plain(ms[i])
    ensures ByteLen(WriteMembers(ms)) <= TotalWeight(ms)
  {
    if ms != [] {
      MemberByteLen(ms[0]);
      MembersByteLen(ms[1..]);
      if |ms| > 1 {
        AsciiByteLen(",");
        ByteLenConcat(WriteMember(ms[0]) + ",", WriteMembers(ms[1..]));
        ByteLenConcat(WriteMember(ms[0]), ",");
      }
    }
  }

  lemma ObjectByteLen(ms: seq<Member>)
    requires forall i :: 0 <= i < |ms| ==> Plain(ms[i])
    ensures ByteLen(WriteObject(ms)) <= TotalWeight(ms) + 2
  {
    MembersByteLen(ms);
    AsciiByteLen("{");
    AsciiByteLen("}");
    ByteLenConcat("{" + WriteMembers(ms), "}");
    ByteLenConcat("{", WriteMembers(ms));
  }

  lemma {:induction false} TotalWeightConcat(a: seq<Member>, b: seq<Member>)
    ensures TotalWeight(a + b) == TotalWeight(a) + TotalWeight(b)
  {
    if a == [] {
      assert a + b == b;
    } else {
      TotalWeightConcat(a[1..], b);
      assert (a + b)[1..] == a[1..] + b;
    }
  }

  lemma TotalWeightPair(m: Member, m': Member)
    ensures TotalWeight([m, m']) == 6 * (|m.name| + Weight(m.value) + |m'.name| + Weight(m'.value)) + 12
  {
    assert [m, m'][1..] == [m'];
    assert TotalWeight([m'][1..]) == 0;
  }

  lemma EventWeight(ev: Event)
    ensures TotalWeight(Members(ev)) == 6 * (77 + ContentBytes(ev) + 4) + 60
  {
    var ms := Members(ev);
    TotalWeightPair(ms[0], ms[1]);
    TotalWeightPair(ms[2], ms[3]);
    TotalWeightPair(ms[4], ms[5]);
    TotalWeightPair(ms[6], ms[7]);
    TotalWeightPair(ms[8], ms[9]);
    TotalWeightConcat([ms[0], ms[1]], [ms[2], ms[3]]);
    TotalWeightConcat([ms[0], ms[1]] + [ms[2], ms[3]], [ms[4], ms[5]]);
    TotalWeightConcat([ms[0], ms[1]] + [ms[2], ms[3]] + [ms[4], ms[5]], [ms[6], ms[7]]);
    TotalWeightConcat([ms[0], ms[1]] + [ms[2], ms[3]] + [ms[4], ms[5]] + [ms[6], ms[7]], [ms[8], ms[9]]);
    assert ms == [ms[0], ms[1]] + [ms[2], ms[3]] + [ms[4], ms[5]] + [ms[6], ms[7]] + [ms[8], ms[9]];
  }

  lemma MembersPlain(ev: Event)
    ensures forall m :: m in Members(ev) ==> Plain(m)
  {
  }

  lemma MarshalByteLen(ev: Event)
    ensures ByteLen(Marshal(ev)) <= 6 * (77 + ContentBytes(ev) + 4) + 62
  {
    MembersPlain(ev);
    EventWeight(ev);
    var ms := Members(ev);
    forall i | 0 <= i < |ms|
      ensures Plain(ms[i])
    {
      assert ms[i] in ms;
    }
    ObjectByteLen(ms);
  }

  /** Whatever the capped request bodies carry, its line fits the scanner even if every byte is escaped. */
  lemma AcceptedEventsFit(ev: Event)
    requires ContentBytes(ev) <= MAX_CONTENT_BYTES
    ensures Fits(ev)
  {
    MarshalByteLen(ev);
  }
}
