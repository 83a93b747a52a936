/**
 The part of JSON that guided-ssh relies on for framing and for canonical keys: flat objects with
 string and integer members, written the way Go's encoding/json writes them, and a reader for that
 form. Section 7 of RFC 8259 requires control characters to be escaped; everything proved about
 line framing rests on that.
 */
module Json {
  import opened Common

  /* ---------------------------------------------------------------- strings */

  const QUOTE := '"'
  const BACKSLASH := '\\'
  const NEWLINE := '\n'

  function HexDigit(n: nat): char
    requires n < 16
  {
    if n < 10 then (n + '0' as int) as char else (n - 10 + 'a' as int) as char
  }

  function HexValue(c: char): Option<nat> {
    if '0' <= c <= '9' then Some(c as int - '0' as int)
    else if 'a' <= c <= 'f' then Some(c as int - 'a' as int + 10)
    else if 'A' <= c <= 'F' then Some(c as int - 'A' as int + 10)
    else None
  }

  function Hex4(n: nat): string
    requires n < 0x10000
  {
    [HexDigit(n / 4096), HexDigit(n / 256 % 16), HexDigit(n / 16 % 16), HexDigit(n % 16)]
  }

  /** Control characters, HTML-sensitive characters and the two line separators. */
  predicate NeedsUnicodeEscape(c: char) {
    c < ' ' || c == '<' || c == '>' || c == '&' || c as int == 0x2028 || c as int == 0x2029
  }

  function EscapeChar(c: char): string {
    if c == QUOTE || c == BACKSLASH then [BACKSLASH, c]
    else if c as int == 8 then [BACKSLASH, 'b']
    else if c as int == 12 then [BACKSLASH, 'f']
    else if c == '\n' then [BACKSLASH, 'n']
    else if c == '\r' then [BACKSLASH, 'r']
    else if c == '\t' then [BACKSLASH, 't']
    else if NeedsUnicodeEscape(c) then [BACKSLASH, 'u'] + Hex4(c as int)
    else [c]
  }

  function Escape(s: string): string {
    if s == "" then "" else EscapeChar(s[0]) + Escape(s[1..])
  }

  function Quoted(s: string): string {
    [QUOTE] + Escape(s) + [QUOTE]
  }

  /** The character behind a four-digit escape; lone surrogates are not characters. */
  function ReadHex4(s: string): Option<char>
    requires |s| >= 4
  {
    match (HexValue(s[0]), HexValue(s[1]), HexValue(s[2]), HexValue(s[3]))
    case (Some(a), Some(b), Some(c), Some(d)) =>
      if a > 15 || b > 15 || c > 15 || d > 15 then None
      else
        var n := a * 4096 + b * 256 + c * 16 + d;
        if 0xD800 <= n < 0xE000 then None else Some(n as char)
    case _ => None
  }

  function SimpleEscape(c: char): Option<char> {
    if c == QUOTE || c == BACKSLASH || c == '/' then Some(c)
    else if c == 'b' then Some(8 as char)
    else if c == 'f' then Some(12 as char)
    else if c == 'n' then Some('\n')
    else if c == 'r' then Some('\r')
    else if c == 't' then Some('\t')
    else None
  }

  /** Reads one possibly escaped character. */
  function ReadChar(s: string): (r: Option<(char, string)>)
    ensures r.Some? ==> |r.value.1| < |s|
  {
    if s == "" || s[0] < ' ' || s[0] == QUOTE then None
    else if s[0] != BACKSLASH then Some((s[0], s[1..]))
    else if |s| < 2 then None
    else if s[1] == 'u' then
      if |s| < 6 || ReadHex4(s[2..]).None? then None else Some((ReadHex4(s[2..]).value, s[6..]))
    else if SimpleEscape(s[1]).Some? then Some((SimpleEscape(s[1]).value, s[2..]))
    else None
  }

  /** Reads up to the closing quote. */
  function ReadString(s: string): (r: Option<(string, string)>)
    ensures r.Some? ==> |r.value.1| < |s|
    decreases |s|
  {
    if s == "" then None
    else if s[0] == QUOTE then Some(("", s[1..]))
    else
      match ReadChar(s)
      case None => None
      case Some((c, rest)) =>
        match ReadString(rest)
        case None => None
        case Some((t, rest')) => Some(([c] + t, rest'))
  }

  lemma HexRoundTrip(n: nat)
    requires n < 16
    ensures HexValue(HexDigit(n)) == Some(n)
  {
  }

  lemma ReadHexDigits(a: nat, b: nat, c: nat, d: nat, rest: string)
    requires a < 16 && b < 16 && c < 16 && d < 16
    requires !(0xD800 <= a * 4096 + b * 256 + c * 16 + d < 0xE000)
    ensures ReadHex4([HexDigit(a), HexDigit(b), HexDigit(c), HexDigit(d)] + rest)
            == Some((a * 4096 + b * 256 + c * 16 + d) as char)
  {
    HexRoundTrip(a);
    HexRoundTrip(b);
    HexRoundTrip(c);
    HexRoundTrip(d);
  }

  lemma HexParts(n: nat)
    requires n < 0x10000
    ensures n / 4096 < 16
    ensures n == n / 4096 * 4096 + n / 256 % 16 * 256 + n / 16 % 16 * 16 + n % 16
  {
    var a, b := n / 16, n / 256;
    assert b == a / 16 && n / 4096 == b / 16;
    assert n == a * 16 + n % 16;
    assert a == b * 16 + a % 16;
    assert b == b / 16 * 16 + b % 16;
  }

  lemma ReadUnicodeEscape(c: char, rest: string)
    requires c as int < 0x10000
    ensures ReadChar([BACKSLASH, 'u'] + Hex4(c as int) + rest) == Some((c, rest))
  {
    var s := [BACKSLASH, 'u'] + Hex4(c as int) + rest;
    HexParts(c as int);
    ReadHexDigits(c as int / 4096, c as int / 256 % 16, c as int / 16 % 16, c as int % 16, rest);
    assert s[2..] == Hex4(c as int) + rest && s[6..] == rest;
  }

  lemma ReadEscapedChar(c: char, rest: string)
    ensures ReadChar(EscapeChar(c) + rest) == Some((c, rest))
    ensures EscapeChar(c)[0] != QUOTE
  {
    var s := EscapeChar(c) + rest;
    if |EscapeChar(c)| == 6 {
      ReadUnicodeEscape(c, rest);
    } else if |EscapeChar(c)| == 2 {
      assert s[2..] == rest;
    } else {
      assert s[1..] == rest;
    }
  }

  lemma Regroup(a: string, b: string, c: string, d: string)
    ensures a + b + c + d == a + (b + c + d) == a + (b + (c + d))
  {
    assert (a + b) + c == a + (b + c);
    assert (b + c) + d == b + (c + d);
    assert (a + (b + c)) + d == a + ((b + c) + d);
  }

  lemma ReadOneMoreChar(c: char, tail: string, t: string, rest: string)
    requires ReadString(tail) == Some((t, rest))
    ensures ReadString(EscapeChar(c) + tail) == Some(([c] + t, rest))
  {
    ReadEscapedChar(c, tail);
  }

  /** An escaped string is read back, and the reader stops at its closing quote. */
  lemma {:induction false} ReadEscaped(s: string, rest: string)
    ensures ReadString(Escape(s) + [QUOTE] + rest) == Some((s, rest))
  {
    if s == "" {
      assert (Escape(s) + [QUOTE] + rest)[1..] == rest;
    } else {
      var tail := Escape(s[1..]) + [QUOTE] + rest;
      ReadEscaped(s[1..], rest);
      ReadOneMoreChar(s[0], tail, s[1..], rest);
      Regroup(EscapeChar(s[0]), Escape(s[1..]), [QUOTE], rest);
      assert [s[0]] + s[1..] == s;
    }
  }

  lemma {:induction false} EscapedHasNoControls(s: string)
    ensures forall c :: c in Escape(s) ==> c >= ' '
  {
    if s != "" {
      EscapedHasNoControls(s[1..]);
      assert forall c :: c in EscapeChar(s[0]) ==> c >= ' ';
    }
  }

  /* ---------------------------------------------------------------- integers */

  predicate IsDigit(c: char) {
    '0' <= c <= '9'
  }

  function Digit(n: nat): char
    requires n < 10
  {
    (n + '0' as int) as char
  }

  function Digits(n: nat): (r: string)
    ensures r != "" && forall c :: c in r ==> IsDigit(c)
  {
    (if n < 10 then "" else Digits(n / 10)) + [Digit(n % 10)]
  }

  function Decimal(n: int): string {
    if n < 0 then "-" + Digits(-n) else Digits(n)
  }

  function ReadDigits(acc: nat, s: string): (r: (nat, string))
    ensures |r.1| <= |s| && (s != "" && IsDigit(s[0]) ==> |r.1| < |s|)
    decreases |s|
  {
    if s == "" || !IsDigit(s[0]) then (acc, s)
    else ReadDigits(acc * 10 + (s[0] as int - '0' as int), s[1..])
  }

  function ReadInt(s: string): (r: Option<(int, string)>)
    ensures r.Some? ==> |r.value.1| < |s|
  {
    if |s| >= 2 && s[0] == '-' && IsDigit(s[1]) then
      var r := ReadDigits(0, s[1..]);
      var n: int := 0 - r.0;
      Some((n, r.1))
    else if s != "" && IsDigit(s[0]) then
      var r := ReadDigits(0, s);
      var n: int := r.0;
      Some((n, r.1))
    else None
  }

  lemma ReadOneDigit(acc: nat, n: nat, rest: string)
    requires n < 10
    ensures ReadDigits(acc, [Digit(n)] + rest) == ReadDigits(acc * 10 + n, rest)
  {
    assert ([Digit(n)] + rest)[1..] == rest;
  }

  lemma LastDigit(n: nat)
    requires n >= 10
    ensures n / 10 * 10 + n % 10 == n && Digits(n) == Digits(n / 10) + [Digit(n % 10)]
  {
  }

  lemma {:induction false} ReadWrittenDigits(n: nat, rest: string)
    ensures ReadDigits(0, Digits(n) + rest) == ReadDigits(n, rest)
  {
    if n < 10 {
      ReadOneDigit(0, n, rest);
      assert Digits(n) == [Digit(n)];
    } else {
      var front, r := n / 10, n % 10;
      LastDigit(n);
      ReadWrittenDigits(front, [Digit(r)] + rest);
      ReadOneDigit(front, r, rest);
      assert Digits(front) + [Digit(r)] + rest == Digits(front) + ([Digit(r)] + rest);
    }
  }

  lemma ReadSigned(negative: bool, digits: string, rest: string)
    requires digits != "" && IsDigit(digits[0])
    requires |ReadDigits(0, digits + rest).1| <= |rest|
    ensures
      var (n, after) := ReadDigits(0, digits + rest);
      ReadInt((if negative then "-" + digits else digits) + rest) == Some((if negative then 0 - n else n, after))
  {
    if negative {
      assert ("-" + digits + rest)[1..] == digits + rest;
    }
  }

  lemma ReadWrittenInt(n: int, rest: string)
    requires rest == "" || !IsDigit(rest[0])
    ensures ReadInt(Decimal(n) + rest) == Some((n, rest))
  {
    var digits := Digits(if n < 0 then -n else n);
    assert digits[0] in digits;
    ReadWrittenDigits(if n < 0 then -n else n, rest);
    ReadSigned(n < 0, digits, rest);
  }

  /* ---------------------------------------------------------------- flat objects */

  datatype Value = Str(str: string) | Num(num: int)

  datatype Member = Member(name: string, value: Value)

  function WriteValue(v: Value): string {
    match v
    case Str(s) => Quoted(s)
    case Num(n) => Decimal(n)
  }

  function WriteMember(m: Member): string {
    Quoted(m.name) + ":" + WriteValue(m.value)
  }

  function WriteMembers(ms: seq<Member>): string {
    if ms == [] then ""
    else if |ms| == 1 then WriteMember(ms[0])
    else WriteMember(ms[0]) + "," + WriteMembers(ms[1..])
  }

  function WriteObject(ms: seq<Member>): string {
    "{" + WriteMembers(ms) + "}"
  }

  function ReadValue(s: string): (r: Option<(Value, string)>)
    ensures r.Some? ==> |r.value.1| < |s|
  {
    if s == "" then None
    else if s[0] == QUOTE then
      match ReadString(s[1..])
      case None => None
      case Some((t, rest)) => Some((Str(t), rest))
    else
      match ReadInt(s)
      case None => None
      case Some((n, rest)) => Some((Num(n), rest))
  }

  function ReadMember(s: string): (r: Option<(Member, string)>)
    ensures r.Some? ==> |r.value.1| < |s|
  {
    if s == "" || s[0] != QUOTE then None
    else
      match ReadString(s[1..])
      case None => None
      case Some((name, rest)) =>
        if rest == "" || rest[0] != ':' then None
        else
          match ReadValue(rest[1..])
          case None => None
          case Some((v, rest')) => Some((Member(name, v), rest'))
  }

  /** One or more members and the closing brace. */
  function ReadMembers(s: string): (r: Option<(seq<Member>, string)>)
    ensures r.Some? ==> |r.value.1| < |s|
    decreases |s|
  {
    match ReadMember(s)
    case None => None
    case Some((m, rest)) =>
      if rest == "" then None
      else if rest[0] == '}' then Some(([m], rest[1..]))
      else if rest[0] != ',' then None
      else
        match ReadMembers(rest[1..])
        case None => None
        case Some((ms, rest')) => Some(([m] + ms, rest'))
  }

  function ReadObject(s: string): Option<(seq<Member>, string)> {
    if s == "" || s[0] != '{' then None
    else if |s| >= 2 && s[1] == '}' then Some(([], s[2..]))
    else ReadMembers(s[1..])
  }

  lemma ReadWrittenValue(v: Value, rest: string)
    requires rest != "" && !IsDigit(rest[0])
    ensures ReadValue(WriteValue(v) + rest) == Some((v, rest))
  {
    match v
    case Str(t) =>
      assert (WriteValue(v) + rest)[1..] == Escape(t) + [QUOTE] + rest;
      ReadEscaped(t, rest);
    case Num(n) =>
      assert n < 0 || Digits(n)[0] in Digits(n);
      ReadWrittenInt(n, rest);
  }

  lemma MemberText(m: Member, rest: string)
    ensures WriteMember(m) + rest == [QUOTE] + (Escape(m.name) + [QUOTE] + ([':'] + (WriteValue(m.value) + rest)))
  {
  }

  lemma ReadNamed(s: string, name: string, value: string, v: Value, rest: string)
    requires ReadString(s) == Some((name, [':'] + value)) && ReadValue(value) == Some((v, rest))
    ensures ReadMember([QUOTE] + s) == Some((Member(name, v), rest))
  {
    assert ([QUOTE] + s)[1..] == s;
    assert ([':'] + value)[1..] == value;
  }

  lemma ReadWrittenMember(m: Member, rest: string)
    requires rest != "" && !IsDigit(rest[0])
    ensures ReadMember(WriteMember(m) + rest) == Some((m, rest))
  {
    var value := WriteValue(m.value) + rest;
    var tail := [':'] + value;
    var s := Escape(m.name) + [QUOTE] + tail;
    MemberText(m, rest);
    ReadEscaped(m.name, tail);
    ReadWrittenValue(m.value, rest);
    ReadNamed(s, m.name, value, m.value, rest);
  }

  lemma ReadLastMember(s: string, m: Member, rest: string)
    requires ReadMember(s) == Some((m, ['}'] + rest))
    ensures ReadMembers(s) == Some(([m], rest))
  {
    assert (['}'] + rest)[1..] == rest;
  }

  lemma ReadFirstMember(s: string, m: Member, more: string, ms: seq<Member>, rest: string)
    requires ReadMember(s) == Some((m, [','] + more)) && ReadMembers(more) == Some((ms, rest))
    ensures ReadMembers(s) == Some(([m] + ms, rest))
  {
    assert ([','] + more)[1..] == more;
  }

  lemma WriteFirstMember(ms: seq<Member>, end: string)
    requires |ms| > 1
    ensures WriteMembers(ms) + end == WriteMember(ms[0]) + ([','] + (WriteMembers(ms[1..]) + end))
  {
    Regroup(WriteMember(ms[0]), [','], WriteMembers(ms[1..]), end);
  }

  lemma {:induction false} ReadWrittenMembers(ms: seq<Member>, rest: string)
    requires ms != []
    ensures ReadMembers(WriteMembers(ms) + (['}'] + rest)) == Some((ms, rest))
  {
    var end := ['}'] + rest;
    if |ms| == 1 {
      ReadWrittenMember(ms[0], end);
      ReadLastMember(WriteMember(ms[0]) + end, ms[0], rest);
      assert ms == [ms[0]];
    } else {
      var more := WriteMembers(ms[1..]) + end;
      ReadWrittenMembers(ms[1..], rest);
      ReadWrittenMember(ms[0], [','] + more);
      WriteFirstMember(ms, end);
      ReadFirstMember(WriteMembers(ms) + end, ms[0], more, ms[1..], rest);
      assert [ms[0]] + ms[1..] == ms;
    }
  }

  lemma WriteMembersStartsQuoted(ms: seq<Member>)
    requires ms != []
    ensures WriteMembers(ms) != "" && WriteMembers(ms)[0] == QUOTE
  {
  }

  lemma ReadNonEmptyObject(s: string)
    requires s != "" && s[0] == QUOTE
    ensures ReadObject("{" + s) == ReadMembers(s)
  {
    assert ("{" + s)[1..] == s;
  }

  /** Round trip: a written object is read back member by member, whatever follows it. */
  lemma ReadWrittenObject(ms: seq<Member>, rest: string)
    ensures ReadObject(WriteObject(ms) + rest) == Some((ms, rest))
  {
    if ms == [] {
      assert (WriteObject(ms) + rest)[2..] == rest;
    } else {
      WriteMembersStartsQuoted(ms);
      var s := WriteMembers(ms) + (['}'] + rest);
      assert WriteObject(ms) + rest == "{" + s;
      ReadNonEmptyObject(s);
      ReadWrittenMembers(ms, rest);
    }
  }

  /** Hence equal texts come from equal objects. */
  lemma WriteObjectInjective(ms: seq<Member>, ms': seq<Member>)
    requires WriteObject(ms) == WriteObject(ms')
    ensures ms == ms'
  {
    ReadWrittenObject(ms, "");
    ReadWrittenObject(ms', "");
  }

  lemma MemberHasNoControls(m: Member)
    ensures forall c :: c in WriteMember(m) ==> c >= ' '
  {
    EscapedHasNoControls(m.name);
    if m.value.Str? {
      EscapedHasNoControls(m.value.str);
    }
  }

  lemma {:induction false} MembersHaveNoControls(ms: seq<Member>)
    ensures forall c :: c in WriteMembers(ms) ==> c >= ' '
  {
    if ms != [] {
      MembersHaveNoControls(ms[1..]);
      MemberHasNoControls(ms[0]);
    }
  }

  /** A written object contains no line feed (nor any other control character). */
  lemma ObjectHasNoControls(ms: seq<Member>)
    ensures forall c :: c in WriteObject(ms) ==> c >= ' '
  {
    MembersHaveNoControls(ms);
  }

  /* ---------------------------------------------------------------- sizes in bytes */

  function Utf8Len(c: char): nat {
    var n := c as int;
    if n < 0x80 then 1 else if n < 0x800 then 2 else if n < 0x10000 then 3 else 4
  }

  function ByteLen(s: string): nat {
    if s == "" then 0 else Utf8Len(s[0]) + ByteLen(s[1..])
  }

  lemma {:induction false} ByteLenConcat(s: string, t: string)
    ensures ByteLen(s + t) == ByteLen(s) + ByteLen(t)
  {
    if s == "" {
      assert s + t == t;
    } else {
      ByteLenConcat(s[1..], t);
      assert (s + t)[1..] == s[1..] + t;
    }
  }

  lemma {:induction false} AsciiByteLen(s: string)
    requires forall i :: 0 <= i < |s| ==> s[i] as int < 0x80
    ensures ByteLen(s) == |s|
  {
    if s != "" {
      AsciiByteLen(s[1..]);
    }
  }

  lemma EscapeCharByteLen(c: char)
    ensures ByteLen(EscapeChar(c)) <= 6 * Utf8Len(c)
  {
    if |EscapeChar(c)| != 1 {
      AsciiByteLen(EscapeChar(c));
    } else {
      assert EscapeChar(c)[1..] == "";
    }
  }

  lemma {:induction false} EscapeByteLen(s: string)
    ensures ByteLen(Escape(s)) <= 6 * ByteLen(s)
  {
    if s != "" {
      EscapeCharByteLen(s[0]);
      EscapeByteLen(s[1..]);
      ByteLenConcat(EscapeChar(s[0]), Escape(s[1..]));
    }
  }

  lemma QuotedByteLen(s: string)
    ensures ByteLen(Quoted(s)) <= 6 * ByteLen(s) + 2
  {
    EscapeByteLen(s);
    ByteLenConcat([QUOTE] + Escape(s), [QUOTE]);
    ByteLenConcat([QUOTE], Escape(s));
  }
}
