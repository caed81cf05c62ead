/** The journal as bytes: what `append_state` writes, what a power loss leaves of it, and how
    `read_journal` splits and parses the file. It connects the bytes with the view of module Journals. */
module JournalBytes {
  import opened Outcomes
  import opened Text
  import opened Journals

  const MAX_MANIFEST_BYTES: nat := 32 * 1024 * 1024
  const NEWLINE: char := '\n'

  function StateName(state: JournalState): (name: string)
    ensures forall i :: 0 <= i < |name| ==> IsLowerLetter(name[i]) || name[i] == '_'
  {
    match state
    case Prepared => "prepared"
    case Committing => "committing"
    case Committed => "committed"
    case RollingBack => "rolling_back"
  }

  const BEFORE_NAME: string := "\"state\":\""

  /** The canonical JSON of a state record: braces only around it, and no newline. */
  function RecordText(state: JournalState): (r: string)
    ensures NEWLINE !in r && |r| >= 2
    ensures r[0] == '{' && forall i :: 1 <= i < |r| ==> r[i] != '{'
    ensures r[|r| - 1] == '}' && forall i :: 0 <= i < |r| - 1 ==> r[i] != '}'
  {
    assert '{' !in BEFORE_NAME && '}' !in BEFORE_NAME && NEWLINE !in BEFORE_NAME;
    var inner := BEFORE_NAME + StateName(state) + "\"";
    assert '{' !in inner && '}' !in inner && NEWLINE !in inner;
    "{" + inner + "}"
  }

  /** `parse_canonical::<JournalStateRecord>`: it accepts the four canonical texts only. */
  function ParseRecord(line: string): (r: Option<JournalState>)
    ensures forall s :: r == Some(s) <==> line == RecordText(s)
  {
    DistinctTexts();
    if line == RecordText(Prepared) then Some(Prepared)
    else if line == RecordText(Committing) then Some(Committing)
    else if line == RecordText(Committed) then Some(Committed)
    else if line == RecordText(RollingBack) then Some(RollingBack)
    else None
  }

  lemma DistinctTexts()
    ensures forall a, b :: RecordText(a) == RecordText(b) ==> a == b
  {
    forall a, b | RecordText(a) == RecordText(b) ensures a == b {
      var n := |BEFORE_NAME| + 1;
      assert RecordText(a)[n..|RecordText(a)| - 2] == StateName(a);
      assert RecordText(b)[n..|RecordText(b)| - 2] == StateName(b);
      DistinctNames(a, b);
    }
  }

  lemma DistinctNames(a: JournalState, b: JournalState)
    requires StateName(a) == StateName(b)
    ensures a == b
  {
    assert "committing"[7] == 'i' && "committed"[7] == 'e';
    assert "prepared"[0] == 'p' && "rolling_back"[0] == 'r' && "committing"[0] == 'c' && "committed"[0] == 'c';
  }

  // ---- the view ---------------------------------------------------------------------------

  /** The record that a line starts with. */
  ghost function Begins(line: string): Option<JournalState> {
    if exists s :: RecordText(s) <= line then
      var s :| RecordText(s) <= line;
      Some(s)
    else None
  }

  ghost function LineView(line: string): Line {
    if ParseRecord(line).Some? then Record(ParseRecord(line).value) else Fragment(Begins(line))
  }

  /** The lines after the header, without the empty ones that the reader skips. */
  ghost function LinesView(lines: seq<string>): seq<Line> {
    if lines == [] then []
    else LinesView(lines[..|lines| - 1]) + (if lines[|lines| - 1] == "" then [] else [LineView(lines[|lines| - 1])])
  }

  ghost function TailView(rest: string): Tail {
    if rest == "" then Clean
    else if ParseRecord(rest).Some? then Unterminated(ParseRecord(rest).value)
    else Torn
  }

  /** What the file's bytes mean. `parseHeader` stands for the canonical parser of the header. */
  ghost function View(bytes: string, parseHeader: string -> Option<Header>): Journal {
    var lines := Split(bytes, NEWLINE);
    if lines[0] == "" || parseHeader(lines[0]).None? || |lines| == 1 then Unreadable
    else Journal(parseHeader(lines[0]).value, LinesView(lines[1..|lines| - 1]), TailView(lines[|lines| - 1]))
  }

  // ---- splitting --------------------------------------------------------------------------

  /** Text without a separator extends the last piece. */
  lemma {:induction false} SplitExtended(a: string, c: char, b: string)
    requires c !in b
    ensures Split(a + b, c) == WithLast(Split(a, c), b)
  {
    if a == "" {
      SplitWithoutSeparator(b, c);
      assert a + b == b && "" + b == b;
    } else {
      SplitExtended(a[1..], c, b);
      SplitStep(a, c);
      SplitStep(a + b, c);
      assert (a + b)[1..] == a[1..] + b;
      WithLastStep(Split(a[1..], c), b, a[0]);
    }
  }

  function WithLast(pieces: seq<string>, b: string): (r: seq<string>)
    requires pieces != []
    ensures |r| == |pieces|
  {
    pieces[..|pieces| - 1] + [pieces[|pieces| - 1] + b]
  }

  lemma WithLastStep(rest: seq<string>, b: string, x: char)
    requires rest != []
    ensures WithLast([""] + rest, b) == [""] + WithLast(rest, b)
    ensures WithLast([[x] + rest[0]] + rest[1..], b) == [[x] + WithLast(rest, b)[0]] + WithLast(rest, b)[1..]
  {
    assert ([""] + rest)[..|rest|] == [""] + rest[..|rest| - 1];
    if |rest| == 1 { assert ([x] + rest[0]) + b == [x] + (rest[0] + b); }
  }

  /** The last piece is empty exactly when the text is empty or ends with the separator. */
  lemma {:induction false} LastPiece(s: string, c: char)
    ensures var pieces := Split(s, c); pieces[|pieces| - 1] == "" <==> s == "" || s[|s| - 1] == c
    ensures |Split(s, c)| == 1 ==> c !in s
  {
    if s != "" {
      LastPiece(s[1..], c);
      var rest := Split(s[1..], c);
      if s[0] != c && |rest| > 1 { assert s[|s| - 1] == s[1..][|s| - 2]; }
    }
  }

  // ---- reading ----------------------------------------------------------------------------

  /** Records read so far, and the state that the reader remembers. */
  ghost predicate Seen(seen: seq<Line>, state: Option<JournalState>) {
    && AllRecords(seen)
    && (seen == [] ==> state == None)
    && (seen != [] ==> LegalHistory(States(seen)) && state == Some(seen[|seen| - 1].state))
  }

  ghost predicate LegalSoFar(seen: seq<Line>) {
    AllRecords(seen) && (seen == [] || LegalHistory(States(seen)))
  }

  lemma SeeNext(seen: seq<Line>, state: Option<JournalState>, next: JournalState)
    requires Seen(seen, state)
    ensures ValidTransition(state, next) ==> Seen(seen + [Record(next)], Some(next))
    ensures !ValidTransition(state, next) ==> !LegalHistory(States(seen + [Record(next)]))
  {
    LegalExtension(States(seen), next);
    assert States(seen + [Record(next)]) == States(seen) + [next];
  }

  /** One more line in the view. */
  lemma LinesViewNext(lines: seq<string>, n: nat)
    requires 1 <= n < |lines|
    ensures LinesView(lines[1..n + 1]) == LinesView(lines[1..n]) + (if lines[n] == "" then [] else [LineView(lines[n])])
  {
    var some := lines[1..n + 1];
    assert some[..|some| - 1] == lines[1..n] && some[|some| - 1] == lines[n];
  }

  lemma SeeFragment(seen: seq<Line>, line: Line)
    requires line.Fragment?
    ensures !LegalSoFar(seen + [line])
  {
    assert (seen + [line])[|seen|] == line;
  }

  /** What reading one more line does. */
  lemma SeeLine(lines: seq<string>, n: nat, state: Option<JournalState>, record: Option<JournalState>)
    requires 1 <= n < |lines| && Seen(LinesView(lines[1..n]), state) && record == ParseRecord(lines[n])
    ensures var seen := LinesView(lines[1..n + 1]);
      if lines[n] == "" then Seen(seen, state)
      else if record.Some? && ValidTransition(state, record.value) then Seen(seen, record)
      else !LegalSoFar(seen)
  {
    var before := LinesView(lines[1..n]);
    LinesViewNext(lines, n);
    if lines[n] != "" {
      if record.Some? {
        SeeNext(before, state, record.value);
      } else {
        SeeFragment(before, LineView(lines[n]));
      }
    } else {
      assert before + [] == before;
    }
  }

  lemma {:induction false} LinesViewGrows(lines: seq<string>, n: nat)
    requires n <= |lines|
    ensures LinesView(lines[..n]) <= LinesView(lines)
  {
    if n < |lines| {
      LinesViewGrows(lines[..|lines| - 1], n);
      assert lines[..|lines| - 1][..n] == lines[..n];
    } else {
      assert lines[..n] == lines;
    }
  }

  lemma PrefixOfReadable(j: Journal, seen: seq<Line>)
    requires Readable(j) && seen <= j.lines
    ensures LegalSoFar(seen)
  {
    assert j.lines[..|seen|] == seen;
    if seen != [] { HistoryPrefix(j.lines, j.tail, |seen|); }
  }

  /** A readable journal is legal up to every line. */
  lemma ReadablePrefix(j: Journal, lines: seq<string>, n: nat)
    requires 1 <= n < |lines| && Readable(j) && j.lines == LinesView(lines[1..|lines| - 1])
    ensures LegalSoFar(LinesView(lines[1..n]))
  {
    var all := lines[1..|lines| - 1];
    assert all[..n - 1] == lines[1..n];
    LinesViewGrows(all, n - 1);
    PrefixOfReadable(j, LinesView(lines[1..n]));
  }

  lemma SeeUnterminated(j: Journal, state: Option<JournalState>)
    requires j.Journal? && ValidHeader(j.header) && Seen(j.lines, state) && j.tail.Unterminated?
    ensures Readable(j) <==> ValidTransition(state, j.tail.state)
  {
    SeeNext(j.lines, state, j.tail.state);
    assert States(j.lines + [Record(j.tail.state)]) == History(j.lines, j.tail);
  }

  lemma SeeEnd(j: Journal, state: Option<JournalState>)
    requires j.Journal? && ValidHeader(j.header) && Seen(j.lines, state) && !j.tail.Unterminated?
    ensures (Readable(j) <==> state.Some?) && (state.Some? ==> LastState(j.lines, j.tail) == state)
  {
    assert History(j.lines, j.tail) == States(j.lines);
  }

  /** What the bytes after the last newline add. */
  lemma SeeTail(j: Journal, last: string, state: Option<JournalState>)
    requires j.Journal? && ValidHeader(j.header) && Seen(j.lines, state) && j.tail == TailView(last)
    ensures var record := ParseRecord(last);
      && (last != "" && record.Some? ==>
            (Readable(j) <==> ValidTransition(state, record.value)) && LastState(j.lines, j.tail) == record)
      && (last == "" || record.None? ==> (Readable(j) <==> state.Some?) && (state.Some? ==> LastState(j.lines, j.tail) == state))
  {
    if j.tail.Unterminated? { SeeUnterminated(j, state); } else { SeeEnd(j, state); }
  }

  /** The record loop: it stops at the first line that makes the journal unreadable. */
  method ReadLines(lines: seq<string>, ghost j: Journal) returns (ok: bool, state: Option<JournalState>)
    requires |lines| >= 2 && j.Journal? && j.lines == LinesView(lines[1..|lines| - 1])
    ensures Readable(j) ==> ok
    ensures ok ==> Seen(j.lines, state)
  {
    state := None;
    for index := 1 to |lines| - 1
      invariant Seen(LinesView(lines[1..index]), state)
    {
      var record := ParseRecord(lines[index]);
      SeeLine(lines, index, state, record);
      if Readable(j) { ReadablePrefix(j, lines, index + 1); }
      if lines[index] != "" {
        if record.None? || !ValidTransition(state, record.value) { return false, state; }
        state := record;
      }
    }
    ok := true;
  }

  /** `read_journal`: over any bytes it accepts exactly the readable journals and returns the last whole
      record, or the tail if only its newline is missing. */
  method ReadJournalBytes(bytes: string, parseHeader: string -> Option<Header>)
    returns (r: Result<(Header, JournalState)>)
    ensures r.Ok? <==> |bytes| <= MAX_MANIFEST_BYTES && Readable(View(bytes, parseHeader))
    ensures r.Ok? ==> var j := View(bytes, parseHeader);
      r.value.0 == j.header && Some(r.value.1) == LastState(j.lines, j.tail)
  {
    if |bytes| > MAX_MANIFEST_BYTES { return Err(RecoveryIncomplete); }
    var lines := Split(bytes, NEWLINE);
    if lines[0] == "" { return Err(RecoveryIncomplete); }
    var header := parseHeader(lines[0]);
    if header.None? { return Err(JsonInvalid); }
    var valid := ValidateHeader(header.value);
    if valid.Failed? { return Err(valid.code); }
    if |lines| == 1 { return Err(RecoveryIncomplete); }
    ghost var j := View(bytes, parseHeader);
    var ok, state := ReadLines(lines, j);
    if !ok { return Err(RecoveryIncomplete); }
    var last := lines[|lines| - 1];
    SeeTail(j, last, state);
    if last != "" {
      var record := ParseRecord(last);
      LastPiece(bytes, NEWLINE);
      // a last line without a newline that is no record is a torn one and is skipped
      if record.Some? {
        if !ValidTransition(state, record.value) { return Err(RecoveryIncomplete); }
        state := record;
      }
    }
    if state.None? { return Err(RecoveryIncomplete); }
    return Ok((header.value, state.value));
  }

  // ---- writing ----------------------------------------------------------------------------

  /** Bytes that a power loss during one `append_state` can leave after the last newline. */
  ghost predicate LeftByAppend(rest: string) { exists s :: rest <= RecordText(s) }

  lemma NoTextIsAPrefix(a: JournalState, b: JournalState)
    requires RecordText(a) <= RecordText(b)
    ensures a == b
  {
    assert RecordText(b)[|RecordText(a)| - 1] == '}';
    DistinctTexts();
  }

  lemma NotARecord(rest: string, state: JournalState)
    requires rest != ""
    ensures ParseRecord(rest + RecordText(state)).None?
  {
    assert (rest + RecordText(state))[|rest|] == '{';
  }

  lemma NotBeyondLeftover(rest: string, state: JournalState, s: JournalState)
    requires rest != "" && RecordText(s) <= rest + RecordText(state)
    ensures |RecordText(s)| <= |rest| && RecordText(s) <= rest
  {
    var t, line := RecordText(s), rest + RecordText(state);
    assert forall i :: 1 <= i < |t| ==> t[i] == line[i] != '{';
    assert line[|rest|] == '{';
  }

  /** Leftover bytes followed by a record begin with a record only if they are that record. */
  lemma BeginsWithLeftover(rest: string, state: JournalState, s: JournalState)
    requires rest != "" && LeftByAppend(rest) && RecordText(s) <= rest + RecordText(state)
    ensures rest == RecordText(s)
  {
    NotBeyondLeftover(rest, state, s);
    var s0 :| rest <= RecordText(s0);
    NoTextIsAPrefix(s, s0);
  }

  /** A record written after leftover bytes is not read as a record, and begins with one only if the
      leftover bytes were a whole record. */
  lemma LineAfterLeftover(rest: string, state: JournalState)
    requires LeftByAppend(rest)
    ensures LineView(rest + RecordText(state)) ==
            match TailView(rest)
            case Clean => Record(state)
            case Torn => Fragment(None)
            case Unterminated(s) => Fragment(Some(s))
  {
    var line := rest + RecordText(state);
    if rest == "" {
      assert line == RecordText(state);
    } else {
      NotARecord(rest, state);
      forall s | RecordText(s) <= line ensures rest == RecordText(s) { BeginsWithLeftover(rest, state, s); }
      if ParseRecord(rest).Some? { assert RecordText(ParseRecord(rest).value) <= line; }
    }
  }

  function LastOf(bytes: string): string {
    var lines := Split(bytes, NEWLINE);
    lines[|lines| - 1]
  }

  lemma SplitAppended(bytes: string, text: string)
    requires NEWLINE !in text
    ensures Split(bytes + text + [NEWLINE], NEWLINE) == WithLast(Split(bytes, NEWLINE), text) + [""]
  {
    SplitExtended(bytes, NEWLINE, text);
    SplitWithoutSeparator("", NEWLINE);
    SplitJoined(bytes + text, NEWLINE, "");
    assert bytes + text + [NEWLINE] + "" == bytes + text + [NEWLINE];
  }

  lemma LinesViewWithLast(lines: seq<string>, text: string)
    requires |lines| >= 2 && text != ""
    ensures var after := WithLast(lines, text) + [""];
      LinesView(after[1..|lines|]) == LinesView(lines[1..|lines| - 1]) + [LineView(lines[|lines| - 1] + text)]
  {
    var n, after := |lines|, WithLast(lines, text) + [""];
    assert after[1..n] == lines[1..n - 1] + [lines[n - 1] + text];
    LinesViewSnoc(lines[1..n - 1], lines[n - 1] + text);
  }

  lemma LinesViewSnoc(lines: seq<string>, last: string)
    requires last != ""
    ensures LinesView(lines + [last]) == LinesView(lines) + [LineView(last)]
  {
    var all := lines + [last];
    assert all[..|all| - 1] == lines && all[|all| - 1] == last;
  }

  /** `append_state` on the bytes is `Appended` on the view. */
  lemma AppendedBytes(bytes: string, parseHeader: string -> Option<Header>, state: JournalState)
    requires View(bytes, parseHeader).Journal? && LeftByAppend(LastOf(bytes))
    ensures View(bytes + RecordText(state) + [NEWLINE], parseHeader) == Appended(View(bytes, parseHeader), state)
    ensures LastOf(bytes + RecordText(state) + [NEWLINE]) == ""
  {
    SplitAppended(bytes, RecordText(state));
    LinesViewWithLast(Split(bytes, NEWLINE), RecordText(state));
    LineAfterLeftover(LastOf(bytes), state);
  }

  lemma CutRecordIsNone(state: JournalState, k: nat)
    requires 0 < k < |RecordText(state)|
    ensures ParseRecord(RecordText(state)[..k]).None?
  {
    var part := RecordText(state)[..k];
    forall s ensures part != RecordText(s) {
      assert part[k - 1] == RecordText(state)[k - 1] && part[k - 1] != '}';
    }
  }

  /** An append cut short is `TornAppend` on the view; it is whole if only the newline is missing. */
  lemma TornBytes(bytes: string, parseHeader: string -> Option<Header>, state: JournalState, k: nat)
    requires View(bytes, parseHeader).Journal? && LastOf(bytes) == "" && 0 < k <= |RecordText(state)|
    ensures var torn := bytes + RecordText(state)[..k];
      && View(torn, parseHeader) == TornAppend(View(bytes, parseHeader), state, k == |RecordText(state)|)
      && LeftByAppend(LastOf(torn))
  {
    var part := RecordText(state)[..k];
    SplitExtended(bytes, NEWLINE, part);
    assert "" + part == part;
    ViewWithTail(bytes, bytes + part, parseHeader, part);
    CutRecordIsTail(state, k);
    assert part <= RecordText(state);
  }

  /** Only the last piece differs. */
  lemma ViewWithTail(bytes: string, torn: string, parseHeader: string -> Option<Header>, part: string)
    requires View(bytes, parseHeader).Journal?
    requires Split(torn, NEWLINE) == Split(bytes, NEWLINE)[..|Split(bytes, NEWLINE)| - 1] + [part]
    ensures View(torn, parseHeader) == View(bytes, parseHeader).(tail := TailView(part)) && LastOf(torn) == part
  {
    var lines, after := Split(bytes, NEWLINE), Split(torn, NEWLINE);
    assert after[1..|after| - 1] == lines[1..|lines| - 1];
  }

  lemma CutRecordIsTail(state: JournalState, k: nat)
    requires 0 < k <= |RecordText(state)|
    ensures TailView(RecordText(state)[..k]) == if k == |RecordText(state)| then Unterminated(state) else Torn
  {
    if k < |RecordText(state)| {
      CutRecordIsNone(state, k);
    } else {
      assert RecordText(state)[..k] == RecordText(state);
    }
  }

  /** The file after `write_new_journal` and further whole records. */
  function JournalText(header: string, states: seq<JournalState>): string {
    if states == [] then header + [NEWLINE]
    else JournalText(header, states[..|states| - 1]) + RecordText(states[|states| - 1]) + [NEWLINE]
  }

  lemma HeaderAlone(header: string, parseHeader: string -> Option<Header>)
    requires header != "" && NEWLINE !in header && parseHeader(header).Some?
    ensures IsWritten(header + [NEWLINE], parseHeader(header).value, parseHeader, [])
  {
    SplitWithoutSeparator(header, NEWLINE);
    SplitWithoutSeparator("", NEWLINE);
    SplitJoined(header, NEWLINE, "");
    assert header + [NEWLINE] + "" == header + [NEWLINE];
  }

  /** The bytes are the header and exactly these whole records. */
  ghost predicate IsWritten(bytes: string, header: Header, parseHeader: string -> Option<Header>, states: seq<JournalState>) {
    var j := View(bytes, parseHeader);
    && j.Journal? && j.header == header && j.tail == Clean && AllRecords(j.lines) && States(j.lines) == states
    && LastOf(bytes) == ""
  }

  lemma WriteNext(bytes: string, header: Header, parseHeader: string -> Option<Header>,
                  front: seq<JournalState>, last: JournalState)
    requires IsWritten(bytes, header, parseHeader, front)
    ensures IsWritten(bytes + RecordText(last) + [NEWLINE], header, parseHeader, front + [last])
  {
    assert LeftByAppend("") by { assert "" <= RecordText(Prepared); }
    AppendedBytes(bytes, parseHeader, last);
    var j := View(bytes, parseHeader);
    assert States(j.lines + [Record(last)]) == States(j.lines) + [last];
  }

  /** Induction over the records of a written file. */
  lemma {:induction false} RecordByRecord(header: string, states: seq<JournalState>, holds: (string, seq<JournalState>) -> bool)
    requires holds(header + [NEWLINE], [])
    requires forall bytes, front, last :: holds(bytes, front) ==> holds(bytes + RecordText(last) + [NEWLINE], front + [last])
    ensures holds(JournalText(header, states), states)
  {
    if states != [] {
      var front, last := states[..|states| - 1], states[|states| - 1];
      RecordByRecord(header, front, holds);
      assert states == front + [last];
    }
  }

  lemma WrittenRecords(header: string, parseHeader: string -> Option<Header>, states: seq<JournalState>)
    requires header != "" && NEWLINE !in header && parseHeader(header).Some?
    ensures IsWritten(JournalText(header, states), parseHeader(header).value, parseHeader, states)
  {
    var h := parseHeader(header).value;
    HeaderAlone(header, parseHeader);
    forall bytes, front, last | IsWritten(bytes, h, parseHeader, front)
      ensures IsWritten(bytes + RecordText(last) + [NEWLINE], h, parseHeader, front + [last])
    {
      WriteNext(bytes, h, parseHeader, front, last);
    }
    RecordByRecord(header, states, (bytes, front) => IsWritten(bytes, h, parseHeader, front));
  }

  /** For a whole header, any records that the service can write and any part of one more record, the
      file is readable and its state is that of the last whole record, or of the partial one if only
      its newline is missing. */
  lemma TornRecordIsTolerated(header: string, parseHeader: string -> Option<Header>, states: seq<JournalState>,
                              next: JournalState, k: nat)
    requires header != "" && NEWLINE !in header && parseHeader(header).Some? && ValidHeader(parseHeader(header).value)
    requires LegalHistory(states) && LegalHistory(states + [next]) && k <= |RecordText(next)|
    ensures var j := View(JournalText(header, states) + RecordText(next)[..k], parseHeader);
      && Readable(j)
      && j.header == parseHeader(header).value
      && LastState(j.lines, j.tail) == Some(if k == |RecordText(next)| then next else states[|states| - 1])
  {
    var bytes := JournalText(header, states);
    WrittenRecords(header, parseHeader, states);
    var j := View(bytes, parseHeader);
    assert History(j.lines, Clean) == States(j.lines) == History(j.lines, Torn);
    assert j.lines[|j.lines| - 1].state == States(j.lines)[|j.lines| - 1];
    if k == 0 {
      assert bytes + RecordText(next)[..0] == bytes;
    } else {
      TornBytes(bytes, parseHeader, next, k);
      assert History(j.lines, Unterminated(next)) == states + [next];
    }
  }
}
