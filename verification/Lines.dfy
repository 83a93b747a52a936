/** Line framing as bufio.Scanner reads it: lines end with a line feed, and an overlong line ends the scan. */
module Lines {
  import opened Json

  const MAX_LINE_BYTES: nat := 1048576

  predicate Overlong(line: string) {
    ByteLen(line) >= MAX_LINE_BYTES
  }

  function LineEnd(raw: string): (e: nat)
    ensures e <= |raw|
  {
    if raw == "" || raw[0] == NEWLINE then 0 else 1 + LineEnd(raw[1..])
  }

  function AfterLine(raw: string): (rest: string)
    requires raw != ""
    ensures |rest| < |raw|
  {
    var e := LineEnd(raw);
    if e < |raw| then raw[e + 1..] else ""
  }

  /** The scanner stops for good at a line that does not fit its buffer. */
  function ScanLines(raw: string): seq<string>
    decreases |raw|
  {
    if raw == "" then []
    else
      var line := raw[..LineEnd(raw)];
      if Overlong(line) then [] else [line] + ScanLines(AfterLine(raw))
  }

  function JoinLines(lines: seq<string>): string {
    if lines == [] then "" else lines[0] + [NEWLINE] + JoinLines(lines[1..])
  }

  predicate Unbroken(lines: seq<string>) {
    forall i :: 0 <= i < |lines| ==> NEWLINE !in lines[i]
  }

  predicate AllFit(lines: seq<string>) {
    forall i :: 0 <= i < |lines| ==> !Overlong(lines[i])
  }

  /** The lines before the first one that is too long. */
  function FittingPrefix(lines: seq<string>): seq<string> {
    if lines == [] || Overlong(lines[0]) then [] else [lines[0]] + FittingPrefix(lines[1..])
  }

  lemma {:induction false} JoinConcat(a: seq<string>, b: seq<string>)
    ensures JoinLines(a + b) == JoinLines(a) + JoinLines(b)
  {
    if a == [] {
      assert a + b == b;
    } else {
      JoinConcat(a[1..], b);
      assert (a + b)[1..] == a[1..] + b;
    }
  }

  lemma {:induction false} FirstLineEnd(line: string, rest: string)
    requires NEWLINE !in line
    ensures LineEnd(line + [NEWLINE] + rest) == |line|
  {
    if line != "" {
      FirstLineEnd(line[1..], rest);
      assert (line + [NEWLINE] + rest)[1..] == line[1..] + [NEWLINE] + rest;
    }
  }

  /** One line in front of anything: read if it fits, the end of the scan if not. */
  lemma ScanFirstLine(line: string, rest: string)
    requires NEWLINE !in line
    ensures ScanLines(line + [NEWLINE] + rest) == if Overlong(line) then [] else [line] + ScanLines(rest)
  {
    FirstLineEnd(line, rest);
    var raw := line + [NEWLINE] + rest;
    assert raw[..|line|] == line;
    assert raw[|line| + 1..] == rest;
  }

  lemma ConsAppend<T>(s: seq<T>, t: seq<T>)
    requires s != []
    ensures [s[0]] + (s[1..] + t) == s + t
  {
  }

  lemma JoinFirst(lines: seq<string>, raw: string)
    requires lines != []
    ensures JoinLines(lines) + raw == lines[0] + [NEWLINE] + (JoinLines(lines[1..]) + raw)
  {
  }

  /** Scanning distributes over concatenation behind whole lines. */
  lemma {:induction false} ScanBehindLines(lines: seq<string>, raw: string)
    requires Unbroken(lines) && AllFit(lines)
    ensures ScanLines(JoinLines(lines) + raw) == lines + ScanLines(raw)
  {
    if lines == [] {
      assert JoinLines(lines) + raw == raw;
    } else {
      var behind := JoinLines(lines[1..]) + raw;
      JoinFirst(lines, raw);
      ScanBehindLines(lines[1..], raw);
      ScanFirstLine(lines[0], behind);
      ConsAppend(lines, ScanLines(raw));
    }
  }

  lemma {:induction false} ScanJoined(lines: seq<string>)
    requires Unbroken(lines)
    ensures ScanLines(JoinLines(lines)) == FittingPrefix(lines)
  {
    if lines != [] {
      ScanFirstLine(lines[0], JoinLines(lines[1..]));
      ScanJoined(lines[1..]);
    }
  }

  lemma {:induction false} FittingPrefixIsPrefix(lines: seq<string>)
    ensures FittingPrefix(lines) <= lines
    ensures FittingPrefix(lines) == lines <==> AllFit(lines)
    ensures |FittingPrefix(lines)| < |lines| ==> Overlong(lines[|FittingPrefix(lines)|])
  {
    if lines != [] {
      FittingPrefixIsPrefix(lines[1..]);
      assert lines == [lines[0]] + lines[1..];
    }
  }

  /* ---------------------------------------------------------------- one record per line */

  /** The lines of some records, one each. */
  function Encode<T>(write: T -> string, records: seq<T>): seq<string> {
    seq(|records|, i requires 0 <= i < |records| => write(records[i]))
  }

  /** The records on some lines; a line may hold none. */
  function Decode<T>(read: string -> seq<T>, lines: seq<string>): seq<T> {
    if lines == [] then [] else read(lines[0]) + Decode(read, lines[1..])
  }

  lemma EncodeConcat<T>(write: T -> string, a: seq<T>, b: seq<T>)
    ensures JoinLines(Encode(write, a + b)) == JoinLines(Encode(write, a)) + JoinLines(Encode(write, b))
  {
    assert Encode(write, a + b) == Encode(write, a) + Encode(write, b);
    JoinConcat(Encode(write, a), Encode(write, b));
  }

  lemma EncodeOne<T>(write: T -> string, x: T)
    ensures JoinLines(Encode(write, [x])) == write(x) + [NEWLINE]
  {
    var lines := [write(x)];
    assert Encode(write, [x]) == lines;
    assert JoinLines(lines[1..]) == "";
  }

  lemma {:induction false} DecodeEncoded<T>(write: T -> string, read: string -> seq<T>, a: seq<T>, more: seq<string>)
    requires forall x :: x in a ==> read(write(x)) == [x]
    ensures Decode(read, Encode(write, a) + more) == a + Decode(read, more)
  {
    var lines := Encode(write, a) + more;
    if a == [] {
      assert lines == more;
    } else {
      assert lines[1..] == Encode(write, a[1..]) + more;
      DecodeEncoded(write, read, a[1..], more);
      assert a == [a[0]] + a[1..];
    }
  }

  /** A record codec whose lines are unbroken and read back. */
  ghost predicate Faithful<T>(write: T -> string, read: string -> seq<T>, a: seq<T>) {
    forall x :: x in a ==> NEWLINE !in write(x) && read(write(x)) == [x]
  }

  /** Reading distributes over concatenation behind written records. */
  lemma DecodeBehind<T>(write: T -> string, read: string -> seq<T>, a: seq<T>, raw: string)
    requires Faithful(write, read, a) && forall x :: x in a ==> !Overlong(write(x))
    ensures Decode(read, ScanLines(JoinLines(Encode(write, a)) + raw)) == a + Decode(read, ScanLines(raw))
  {
    ScanBehindLines(Encode(write, a), raw);
    DecodeEncoded(write, read, a, ScanLines(raw));
  }

  /** What is read back of any written records, including overlong ones. */
  lemma DecodeJoined<T>(write: T -> string, read: string -> seq<T>, a: seq<T>) returns (n: nat)
    requires Faithful(write, read, a)
    ensures n <= |a| && Decode(read, ScanLines(JoinLines(Encode(write, a)))) == a[..n]
    ensures n < |a| ==> Overlong(write(a[n]))
    ensures n == |a| <==> forall x :: x in a ==> !Overlong(write(x))
  {
    var lines := Encode(write, a);
    ScanJoined(lines);
    FittingPrefixIsPrefix(lines);
    n := |FittingPrefix(lines)|;
    assert FittingPrefix(lines) == Encode(write, a[..n]) + [];
    DecodeEncoded(write, read, a[..n], []);
    assert a[..n] + [] == a[..n];
    assert AllFit(lines) <==> forall x :: x in a ==> !Overlong(write(x)) by {
      assert forall i :: 0 <= i < |a| ==> lines[i] == write(a[i]);
    }
  }
}
