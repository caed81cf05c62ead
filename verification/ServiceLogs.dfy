/** The service log: its line format and its bounded file. Strings here are Unicode characters; the file
    holds their UTF-8 bytes. */
module ServiceLogs {
  import opened Text
  import opened Calendar

  const SECONDS_PER_DAY: nat := 86_400
  const MAX_FIELD_CHARS: nat := 512
  const DEFAULT_MAX_BYTES: nat := 256 * 1024

  datatype Event = Event(seconds: nat, name: string, detail: string)

  // ---- line format ------------------------------------------------------------------------

  /** A decimal numeral padded with zeros to at least `width` digits. */
  function Pad(n: nat, width: nat): (s: string)
    ensures forall i :: 0 <= i < |s| ==> IsDigit(s[i])
    ensures |s| >= width && |s| >= |Decimal(n)| && (|Decimal(n)| >= width ==> s == Decimal(n))
    ensures |Decimal(n)| <= width ==> |s| == width
    decreases width
  {
    var digits := Decimal(n);
    if |digits| >= width then digits else Zeros(width - |digits|) + digits
  }

  function Zeros(n: nat): (s: string)
    ensures |s| == n && forall i :: 0 <= i < |s| ==> s[i] == '0'
  {
    seq(n, _ => '0')
  }

  lemma {:induction false} ZerosDoNotCount(n: nat, digits: string)
    requires AllDigits(digits)
    ensures DecimalValue(Zeros(n) + digits) == DecimalValue(digits)
  {
    var s := Zeros(n) + digits;
    if digits == "" {
      if n > 0 {
        ZerosDoNotCount(n - 1, "");
        assert s[..|s| - 1] == Zeros(n - 1) + "";
      }
    } else {
      assert s[..|s| - 1] == Zeros(n) + digits[..|digits| - 1];
      ZerosDoNotCount(n, digits[..|digits| - 1]);
    }
  }

  lemma PadDeterminesNumber(m: nat, n: nat, width: nat)
    requires Pad(m, width) == Pad(n, width)
    ensures m == n
  {
    PadValue(m, width);
    PadValue(n, width);
  }

  lemma PadValue(n: nat, width: nat)
    ensures DecimalValue(Pad(n, width)) == n
  {
    DecimalValueOfDecimal(n);
    if |Decimal(n)| < width { ZerosDoNotCount(width - |Decimal(n)|, Decimal(n)); }
  }

  lemma TwoDigits(n: nat)
    requires n < 100
    ensures |Pad(n, 2)| == 2
  {
    assert Power10(2) == 100;
    DecimalLength(n, 2);
  }

  function Year(seconds: nat): nat {
    var year := CivilFromDays(seconds / SECONDS_PER_DAY).year;
    if year >= 0 then year else 0
  }

  function Month(seconds: nat): nat {
    var month := CivilFromDays(seconds / SECONDS_PER_DAY).month;
    if month >= 0 then month else 0
  }

  function Day(seconds: nat): nat {
    var day := CivilFromDays(seconds / SECONDS_PER_DAY).day;
    if day >= 0 then day else 0
  }

  function TimeOfDay(seconds: nat): nat { seconds % SECONDS_PER_DAY }

  /** `-MM-DDThh:mm:ssZ`. */
  function AfterYear(month: nat, day: nat, hour: nat, minute: nat, second: nat): string {
    "-" + Pad(month, 2) + "-" + Pad(day, 2) + "T" + Pad(hour, 2) + ":" + Pad(minute, 2) + ":" + Pad(second, 2) + "Z"
  }

  /** `YYYY-MM-DDThh:mm:ssZ`. */
  function Stamp(seconds: nat): string {
    var time := TimeOfDay(seconds);
    Pad(Year(seconds), 4)
    + AfterYear(Month(seconds), Day(seconds), time / 3_600, time % 3_600 / 60, time % 60)
  }

  predicate IsControl(c: char) { c < ' ' || 127 as char <= c <= 159 as char }

  /** One field on one line and within a fixed number of characters. */
  function Sanitize(field: string): (r: string)
    ensures |r| <= MAX_FIELD_CHARS
    ensures forall i :: 0 <= i < |r| ==> !IsControl(r[i])
  {
    var kept := if |field| <= MAX_FIELD_CHARS then field else field[..MAX_FIELD_CHARS];
    seq(|kept|, i requires 0 <= i < |kept| => if IsControl(kept[i]) then ' ' else kept[i])
  }

  function FormatLine(seconds: nat, event: string, detail: string): string {
    Stamp(seconds) + " " + Sanitize(event) + " " + Sanitize(detail) + "\n"
  }

  lemma DateParts(seconds: nat)
    ensures var d := CivilFromDays(seconds / SECONDS_PER_DAY);
      d == Date(Year(seconds), Month(seconds), Day(seconds)) && Month(seconds) < 100 && Day(seconds) < 100
  {
    CivilFromDaysCountsDays(seconds / SECONDS_PER_DAY);
    DatesAreReal(seconds / SECONDS_PER_DAY);
  }

  /** Five two-character fields at their places. */
  lemma FieldsAtPlaces(a: string, b: string, c: string, d: string, e: string)
    requires |a| == |b| == |c| == |d| == |e| == 2
    ensures var s := "-" + a + "-" + b + "T" + c + ":" + d + ":" + e + "Z";
      |s| == 16 && s[1..3] == a && s[4..6] == b && s[7..9] == c && s[10..12] == d && s[13..15] == e
  {}

  lemma AfterYearLength(month: nat, day: nat, hour: nat, minute: nat, second: nat)
    requires month < 100 && day < 100 && hour < 100 && minute < 100 && second < 100
    ensures var s := AfterYear(month, day, hour, minute, second);
      && |s| == 16
      && s[1..3] == Pad(month, 2) && s[4..6] == Pad(day, 2)
      && s[7..9] == Pad(hour, 2) && s[10..12] == Pad(minute, 2) && s[13..15] == Pad(second, 2)
  {
    TwoDigits(month);
    TwoDigits(day);
    TwoDigits(hour);
    TwoDigits(minute);
    TwoDigits(second);
    FieldsAtPlaces(Pad(month, 2), Pad(day, 2), Pad(hour, 2), Pad(minute, 2), Pad(second, 2));
  }

  lemma TimeParts(time: nat)
    ensures time == 3_600 * (time / 3_600) + 60 * (time % 3_600 / 60) + time % 60
    ensures time % 3_600 / 60 < 60 && time % 60 < 60
    ensures time < SECONDS_PER_DAY ==> time / 3_600 < 24
  {}

  lemma SameFields(a: string, b: string, x: string, y: string)
    requires a + x == b + y && |x| == |y|
    ensures a == b && x == y
  {
    assert a == (a + x)[..|a|] && b == (b + y)[..|b|];
    assert x == (a + x)[|a|..] && y == (b + y)[|b|..];
  }

  /** The date and time fields determine the second. */
  lemma StampDeterminesSecond(a: nat, b: nat)
    requires Stamp(a) == Stamp(b)
    ensures a == b
  {
    StampParts(a);
    StampParts(b);
    var s, t := TimeOfDay(a), TimeOfDay(b);
    SameFields(Pad(Year(a), 4), Pad(Year(b), 4),
               AfterYear(Month(a), Day(a), s / 3_600, s % 3_600 / 60, s % 60),
               AfterYear(Month(b), Day(b), t / 3_600, t % 3_600 / 60, t % 60));
    PadDeterminesNumber(Year(a), Year(b), 4);
    PadDeterminesNumber(Month(a), Month(b), 2);
    PadDeterminesNumber(Day(a), Day(b), 2);
    PadDeterminesNumber(s / 3_600, t / 3_600, 2);
    PadDeterminesNumber(s % 3_600 / 60, t % 3_600 / 60, 2);
    PadDeterminesNumber(s % 60, t % 60, 2);
    DateDeterminesDay(a / SECONDS_PER_DAY, b / SECONDS_PER_DAY);
  }

  lemma StampParts(seconds: nat)
    ensures var time := TimeOfDay(seconds);
      var rest := AfterYear(Month(seconds), Day(seconds), time / 3_600, time % 3_600 / 60, time % 60);
      && Stamp(seconds) == Pad(Year(seconds), 4) + rest && |rest| == 16
      && rest[1..3] == Pad(Month(seconds), 2) && rest[4..6] == Pad(Day(seconds), 2)
      && rest[7..9] == Pad(time / 3_600, 2) && rest[10..12] == Pad(time % 3_600 / 60, 2) && rest[13..15] == Pad(time % 60, 2)
      && CivilFromDays(seconds / SECONDS_PER_DAY) == Date(Year(seconds), Month(seconds), Day(seconds))
      && time == 3_600 * (time / 3_600) + 60 * (time % 3_600 / 60) + time % 60
  {
    var time := TimeOfDay(seconds);
    DateParts(seconds);
    TimeParts(time);
    AfterYearLength(Month(seconds), Day(seconds), time / 3_600, time % 3_600 / 60, time % 60);
  }

  // ---- bytes --------------------------------------------------------------------------------

  /** UTF-8, section 3 of RFC 3629. */
  function Utf8(c: char): (r: seq<byte>)
    ensures 1 <= |r| <= 4
    ensures c as int < 128 ==> r == [c as int]
    ensures c as int >= 128 ==> forall i :: 0 <= i < |r| ==> r[i] >= 128
  {
    var n := c as int;
    if n < 0x80 then [n]
    else if n < 0x800 then [0xC0 + n / 0x40, 0x80 + n % 0x40]
    else if n < 0x1_0000 then [0xE0 + n / 0x1000, 0x80 + n / 0x40 % 0x40, 0x80 + n % 0x40]
    else [0xF0 + n / 0x4_0000, 0x80 + n / 0x1000 % 0x40, 0x80 + n / 0x40 % 0x40, 0x80 + n % 0x40]
  }

  function Encode(s: string): (r: seq<byte>) {
    if s == "" then [] else Utf8(s[0]) + Encode(s[1..])
  }

  lemma EncodeCons(s: string, rest: string)
    requires s != "" && s[1..] == rest
    ensures Encode(s) == Utf8(s[0]) + Encode(rest)
  {}

  lemma Associative(a: seq<byte>, b: seq<byte>, c: seq<byte>)
    ensures a + (b + c) == (a + b) + c
  {}

  lemma {:induction false} EncodeJoined(a: string, b: string)
    ensures Encode(a + b) == Encode(a) + Encode(b)
  {
    if a == "" {
      assert a + b == b;
    } else {
      EncodeJoined(a[1..], b);
      assert (a + b)[0] == a[0];
      EncodeCons(a + b, a[1..] + b);
      Associative(Utf8(a[0]), Encode(a[1..]), Encode(b));
    }
  }

  predicate Ascii(s: string) { forall i :: 0 <= i < |s| ==> s[i] as int < 128 }

  lemma {:induction false} EncodedLength(s: string)
    ensures |s| <= |Encode(s)| <= 4 * |s|
    ensures Ascii(s) ==> |Encode(s)| == |s|
  {
    if s != "" { EncodedLength(s[1..]); }
  }

  const NEWLINE: byte := 10

  lemma {:induction false} NewlineBytes(s: string)
    ensures NEWLINE in Encode(s) <==> '\n' in s
  {
    if s == "" {
    } else {
      NewlineBytes(s[1..]);
      assert s == [s[0]] + s[1..];
      assert NEWLINE in Utf8(s[0]) <==> s[0] == '\n';
    }
  }

  function LineBytes(seconds: nat, event: string, detail: string): seq<byte> {
    Encode(FormatLine(seconds, event, detail))
  }

  /** An event is one line of the file, whatever its fields hold. */
  lemma LineIsOneLine(seconds: nat, event: string, detail: string)
    ensures var line := LineBytes(seconds, event, detail);
      |line| > 0 && line[|line| - 1] == NEWLINE && NEWLINE !in line[..|line| - 1]
  {
    var front := Stamp(seconds) + " " + Sanitize(event) + " " + Sanitize(detail);
    StampHasNoNewline(seconds);
    assert IsControl('\n');
    assert '\n' !in front;
    NewlineBytes(front);
    EncodeJoined(front, "\n");
    assert Encode("\n") == [NEWLINE];
  }

  // ---- the longest line -----------------------------------------------------------------------

  /** The bytes of a stamp with a year of at most twenty digits, of two fields of four bytes a character, of
      the two spaces and of the newline. */
  const LONGEST_LINE: nat := 20 + 16 + 1 + 4 * MAX_FIELD_CHARS + 1 + 4 * MAX_FIELD_CHARS + 1

  lemma {:induction false} YearsPassSlowly(days: nat)
    ensures DateAfter(days).year <= 1970 + days
  {
    if days > 0 { YearsPassSlowly(days - 1); }
  }

  lemma StampLength(seconds: nat)
    requires seconds <= U64_MAX
    ensures |Stamp(seconds)| <= 36 && Ascii(Stamp(seconds))
  {
    var time := TimeOfDay(seconds);
    StampParts(seconds);
    YearsPassSlowly(seconds / SECONDS_PER_DAY);
    CivilFromDaysCountsDays(seconds / SECONDS_PER_DAY);
    U64HasAtMostTwentyDigits(Year(seconds));
    FieldsAreAscii(Month(seconds), Day(seconds), time / 3_600, time % 3_600 / 60, time % 60);
  }

  lemma JoinedAscii(a: string, b: string, c: string, d: string, e: string)
    requires Ascii(a) && Ascii(b) && Ascii(c) && Ascii(d) && Ascii(e)
    ensures Ascii("-" + a + "-" + b + "T" + c + ":" + d + ":" + e + "Z")
  {
    assert Ascii("-" + a + "-" + b + "T");
    assert Ascii(c + ":" + d + ":" + e + "Z");
    assert "-" + a + "-" + b + "T" + c + ":" + d + ":" + e + "Z" == ("-" + a + "-" + b + "T") + (c + ":" + d + ":" + e + "Z");
  }

  lemma FieldsAreAscii(month: nat, day: nat, hour: nat, minute: nat, second: nat)
    ensures Ascii(AfterYear(month, day, hour, minute, second))
  {
    JoinedAscii(Pad(month, 2), Pad(day, 2), Pad(hour, 2), Pad(minute, 2), Pad(second, 2));
  }

  /** No line is longer than `LONGEST_LINE` bytes. */
  lemma LinesAreBounded(seconds: nat, event: string, detail: string)
    requires seconds <= U64_MAX
    ensures |LineBytes(seconds, event, detail)| <= LONGEST_LINE
  {
    var stamp, a, b := Stamp(seconds), Sanitize(event), Sanitize(detail);
    StampLength(seconds);
    EncodeJoined(stamp, " ");
    EncodeJoined(stamp + " ", a);
    EncodeJoined(stamp + " " + a, " ");
    EncodeJoined(stamp + " " + a + " ", b);
    EncodeJoined(stamp + " " + a + " " + b, "\n");
    EncodedLength(stamp);
    EncodedLength(a);
    EncodedLength(b);
    EncodedLength(" ");
    EncodedLength("\n");
  }

  lemma StampHasNoNewline(seconds: nat)
    ensures '\n' !in Stamp(seconds)
  {
    var time := TimeOfDay(seconds);
    assert !IsDigit('\n');
    assert '\n' !in Pad(Year(seconds), 4);
    FieldsHaveNoNewline(Month(seconds), Day(seconds), time / 3_600, time % 3_600 / 60, time % 60);
  }

  lemma FieldsHaveNoNewline(month: nat, day: nat, hour: nat, minute: nat, second: nat)
    ensures '\n' !in AfterYear(month, day, hour, minute, second)
  {
    assert !IsDigit('\n');
    assert forall n: nat :: '\n' !in Pad(n, 2);
  }

  // ---- the bounded file -------------------------------------------------------------------

  ghost predicate EndsWith(text: seq<byte>, end: seq<byte>) {
    |end| <= |text| && text[|text| - |end|..] == end
  }

  lemma EndsWithPart(text: seq<byte>, a: seq<byte>, b: seq<byte>)
    requires EndsWith(text, a + b)
    ensures EndsWith(text, b) && b + [] == b
  {
    assert b == (a + b)[|a|..];
  }

  lemma EndsWithMore(text: seq<byte>, a: seq<byte>, b: seq<byte>, part: seq<byte>)
    requires EndsWith(text, a + b)
    ensures EndsWith(text + part, a + (b + part))
  {
    assert a + (b + part) == a + b + part;
  }

  class ServiceLog {
    const maxBytes: nat
    var file: seq<byte>
    var rotated: seq<byte>
    /** Everything that was ever written to the log file. */
    ghost var written: seq<byte>

    constructor (maxBytes: nat)
      ensures this.maxBytes == maxBytes && file == [] && rotated == [] && written == [] && KeepsLatest()
    {
      this.maxBytes, file, rotated, written := maxBytes, [], [], [];
    }

    /** The rotated file and the file are the latest part of what was written, without a gap. */
    ghost predicate KeepsLatest()
      reads this
    {
      EndsWith(written, rotated + file)
    }

    predicate Bounded()
      reads this
    {
      |file| <= maxBytes && |rotated| <= maxBytes
    }

    /** `append`: rotation first if the line would exceed the bound; logging is best-effort, so a fault
        can leave the line out or cut it short. A log within its bound stays so for every line that is
        itself within it, and no complete longer line leaves it so. */
    method Append(line: seq<byte>) returns (complete: bool)
      requires KeepsLatest()
      modifies this
      ensures KeepsLatest()
      ensures exists part :: part <= line && written == old(written) + part && (complete ==> part == line)
      ensures complete ==> EndsWith(file, line)
      ensures old(Bounded()) && |line| <= maxBytes ==> Bounded()
      ensures complete && |line| > maxBytes ==> !Bounded()
    {
      complete := false;
      if |file| > 0 && |file| + |line| > maxBytes {
        var renamed: bool := *;
        if !renamed {
          assert written == written + [] && [] <= line;
          return;
        }
        EndsWithPart(written, rotated, file);
        rotated, file := file, [];
      }
      var length: int := *;
      var part := if 0 <= length < |line| then line[..length] else line;
      EndsWithMore(written, rotated, file, part);
      file := file + part;
      written := written + part;
      complete := part == line;
    }

    /** `record`, for any sequence of events: the log stays within its bound for every bound that is not
        shorter than the longest line, and its two files are the latest part of what was written. */
    method RecordAll(events: seq<Event>)
      requires KeepsLatest() && Bounded() && maxBytes >= LONGEST_LINE
      requires forall i :: 0 <= i < |events| ==> events[i].seconds <= U64_MAX
      modifies this
      ensures KeepsLatest() && Bounded()
    {
      for i := 0 to |events|
        invariant KeepsLatest() && Bounded()
      {
        LinesAreBounded(events[i].seconds, events[i].name, events[i].detail);
        var _ := Append(LineBytes(events[i].seconds, events[i].name, events[i].detail));
      }
    }
  }

  /** The service's own log, over any events: `in_directory`, then `record`. */
  method RecordService(events: seq<Event>) returns (log: ServiceLog)
    requires forall i :: 0 <= i < |events| ==> events[i].seconds <= U64_MAX
    ensures fresh(log) && log.KeepsLatest() && |log.file| + |log.rotated| <= 2 * DEFAULT_MAX_BYTES
  {
    log := new ServiceLog(DEFAULT_MAX_BYTES);
    log.RecordAll(events);
  }
}
