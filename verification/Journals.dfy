/** The transaction journal: its header, its state records and how recovery reads it.
    A journal file is a header line followed by newline-terminated lines and possibly by bytes after
    the last newline. Module JournalBytes connects this view with the bytes on disk. */
module Journals {
  import opened Outcomes
  import opened Text
  import opened JobIds
  import opened FileSets

  const JOURNAL_SCHEMA: nat := 1
  const U32_MAX: nat := 0xFFFF_FFFF

  /** What identifies a target file: directory entry identity, last write time and size. */
  datatype Snapshot = Snapshot(identity: nat, lastWriteTime: nat, size: nat)

  datatype Action = Replace | Remove

  datatype Entry = Entry(action: Action, original: Option<Snapshot>, path: string,
                         preparedIndex: Option<nat>, transactionIndex: nat)

  datatype Header = Header(entries: seq<Entry>, generation: nat, jobId: string,
                           manifestDigest: string, root: string, schema: nat)

  datatype JournalState = Prepared | Committing | Committed | RollingBack

  /** A newline-terminated line: a record, or bytes that are none. `begins` is the whole record
      such bytes start with, if they do. */
  datatype Line = Record(state: JournalState) | Fragment(begins: Option<JournalState>)

  /** The bytes after the last newline: none, part of a record, or a record without its newline. */
  datatype Tail = Clean | Torn | Unterminated(state: JournalState)

  /** `Unreadable` is a file whose header line is missing or incomplete. */
  datatype Journal = Unreadable | Journal(header: Header, lines: seq<Line>, tail: Tail)

  // ---- header -----------------------------------------------------------------------------

  ghost predicate DistinctPaths(entries: seq<Entry>) {
    forall i, j :: 0 <= i < j < |entries| ==> Lower(entries[i].path) != Lower(entries[j].path)
  }

  ghost predicate DistinctIndexes(entries: seq<Entry>) {
    forall i, j :: 0 <= i < j < |entries| ==> entries[i].transactionIndex != entries[j].transactionIndex
  }

  ghost predicate DistinctPreparedIndexes(entries: seq<Entry>) {
    forall i, j :: 0 <= i < j < |entries| && entries[i].preparedIndex.Some? ==>
      entries[i].preparedIndex != entries[j].preparedIndex
  }

  predicate WellFormedEntry(e: Entry) {
    ValidRelativePath(e.path) && (e.action.Replace? <==> e.preparedIndex.Some?)
  }

  ghost predicate ValidEntries(entries: seq<Entry>) {
    && (forall i :: 0 <= i < |entries| ==> WellFormedEntry(entries[i]))
    && DistinctPaths(entries)
    && DistinctIndexes(entries)
    && DistinctPreparedIndexes(entries)
  }

  ghost predicate ValidHeader(h: Header) {
    && h.schema == JOURNAL_SCHEMA
    && h.entries != []
    && ValidInternalJobId(h.jobId)
    && ValidHash(h.manifestDigest)
    && ValidEntries(h.entries)
  }

  /** What the three sets of `validate_journal_header` hold after some entries. */
  ghost predicate Collected(entries: seq<Entry>, paths: set<string>, indexes: set<nat>, prepared: set<nat>) {
    CollectedPaths(entries, paths) && CollectedIndexes(entries, indexes) && CollectedPrepared(entries, prepared)
  }

  ghost predicate CollectedPaths(entries: seq<Entry>, paths: set<string>) {
    forall s :: s in paths <==> exists i :: 0 <= i < |entries| && Lower(entries[i].path) == s
  }

  ghost predicate CollectedIndexes(entries: seq<Entry>, indexes: set<nat>) {
    forall n :: n in indexes <==> exists i :: 0 <= i < |entries| && entries[i].transactionIndex == n
  }

  ghost predicate CollectedPrepared(entries: seq<Entry>, prepared: set<nat>) {
    forall n :: n in prepared <==> exists i :: 0 <= i < |entries| && entries[i].preparedIndex == Some(n)
  }

  /** The entry that `validate_journal_header` would refuse after the ones already collected. */
  predicate Refused(e: Entry, paths: set<string>, indexes: set<nat>, prepared: set<nat>) {
    || !ValidRelativePath(e.path)
    || Lower(e.path) in paths
    || e.transactionIndex in indexes
    || (e.action.Replace? && e.preparedIndex.None?)
    || (e.action.Remove? && e.preparedIndex.Some?)
    || (e.preparedIndex.Some? && e.preparedIndex.value in prepared)
  }

  lemma PrefixOfValidEntries(entries: seq<Entry>, n: nat)
    requires n <= |entries| && ValidEntries(entries)
    ensures ValidEntries(entries[..n])
  {}

  lemma RefusedExactlyWhenInvalid(before: seq<Entry>, e: Entry, paths: set<string>, indexes: set<nat>, prepared: set<nat>)
    requires ValidEntries(before) && Collected(before, paths, indexes, prepared)
    ensures !Refused(e, paths, indexes, prepared) <==> ValidEntries(before + [e])
  {
    var all := before + [e];
    assert all[|before|] == e;
    if ValidEntries(all) {
      assert WellFormedEntry(all[|before|]);
      assert forall i :: 0 <= i < |before| ==> all[i] == before[i];
    } else if !Refused(e, paths, indexes, prepared) {
      assert forall i :: 0 <= i < |before| ==> all[i] == before[i];
      assert ValidEntries(all);
    }
  }

  lemma CollectNext(before: seq<Entry>, e: Entry, paths: set<string>, indexes: set<nat>, prepared: set<nat>)
    requires Collected(before, paths, indexes, prepared)
    ensures Collected(before + [e], paths + {Lower(e.path)}, indexes + {e.transactionIndex},
                      if e.preparedIndex.Some? then prepared + {e.preparedIndex.value} else prepared)
  {
    NextPath(before, e, paths);
    NextIndex(before, e, indexes);
    NextPrepared(before, e, prepared);
  }

  lemma NextPath(before: seq<Entry>, e: Entry, paths: set<string>)
    requires CollectedPaths(before, paths)
    ensures CollectedPaths(before + [e], paths + {Lower(e.path)})
  {
    var all := before + [e];
    assert all[|before|] == e;
    assert forall i :: 0 <= i < |before| ==> all[i] == before[i];
  }

  lemma NextIndex(before: seq<Entry>, e: Entry, indexes: set<nat>)
    requires CollectedIndexes(before, indexes)
    ensures CollectedIndexes(before + [e], indexes + {e.transactionIndex})
  {
    var all := before + [e];
    assert all[|before|] == e;
    assert forall i :: 0 <= i < |before| ==> all[i] == before[i];
  }

  lemma NextPrepared(before: seq<Entry>, e: Entry, prepared: set<nat>)
    requires CollectedPrepared(before, prepared)
    ensures CollectedPrepared(before + [e], if e.preparedIndex.Some? then prepared + {e.preparedIndex.value} else prepared)
  {
    var all := before + [e];
    assert all[|before|] == e;
    assert forall i :: 0 <= i < |before| ==> all[i] == before[i];
  }

  /** `validate_journal_header`: one pass over the entries with three growing sets accepts exactly
      the headers whose paths and indexes are pairwise distinct. */
  method ValidateHeader(h: Header) returns (r: Outcome)
    ensures r.Done? <==> ValidHeader(h)
    ensures !r.Done? ==> r.Failed? && r.code in {RecoveryIncomplete, FileSetPath}
  {
    if h.schema != JOURNAL_SCHEMA || h.entries == [] || !ValidInternalJobId(h.jobId) { return Failed(RecoveryIncomplete); }
    var digest := DecodeLowerHex(h.manifestDigest, DIGEST_BYTES);
    if digest.None? { return Failed(RecoveryIncomplete); }
    var paths: set<string>, indexes: set<nat>, prepared: set<nat> := {}, {}, {};
    for i := 0 to |h.entries|
      invariant ValidEntries(h.entries[..i])
      invariant Collected(h.entries[..i], paths, indexes, prepared)
    {
      var e := h.entries[i];
      assert h.entries[..i + 1] == h.entries[..i] + [e];
      RefusedExactlyWhenInvalid(h.entries[..i], e, paths, indexes, prepared);
      CollectNext(h.entries[..i], e, paths, indexes, prepared);
      if Refused(e, paths, indexes, prepared) {
        if ValidEntries(h.entries) { PrefixOfValidEntries(h.entries, i + 1); }
        return Failed(if ValidRelativePath(e.path) then RecoveryIncomplete else FileSetPath);
      }
      paths := paths + {Lower(e.path)};
      indexes := indexes + {e.transactionIndex};
      if e.preparedIndex.Some? { prepared := prepared + {e.preparedIndex.value}; }
    }
    assert h.entries[..|h.entries|] == h.entries;
    return Done;
  }

  // ---- state records ----------------------------------------------------------------------

  /** `validate_state_transition`. */
  predicate ValidTransition(previous: Option<JournalState>, next: JournalState) {
    match (previous, next)
    case (None, Prepared) => true
    case (Some(Prepared), Committing) => true
    case (Some(Committing), Committed) => true
    case (Some(Committing), RollingBack) => true
    case _ => false
  }

  /** The non-empty prefixes of the two histories a job can have. */
  predicate LegalHistory(states: seq<JournalState>) {
    states != [] && (states <= [Prepared, Committing, Committed] || states <= [Prepared, Committing, RollingBack])
  }

  predicate AllRecords(lines: seq<Line>) { forall i :: 0 <= i < |lines| ==> lines[i].Record? }

  function States(lines: seq<Line>): (r: seq<JournalState>)
    requires AllRecords(lines)
    ensures |r| == |lines|
  {
    seq(|lines|, i requires 0 <= i < |lines| => lines[i].state)
  }

  /** The records a reader sees: the lines and a last record whose newline is missing. */
  function History(lines: seq<Line>, tail: Tail): seq<JournalState>
    requires AllRecords(lines)
  {
    States(lines) + (if tail.Unterminated? then [tail.state] else [])
  }

  /** The journals that `read_journal` accepts. */
  ghost predicate Readable(j: Journal) {
    j.Journal? && ValidHeader(j.header) && AllRecords(j.lines) && LegalHistory(History(j.lines, j.tail))
  }

  /** The state of the last whole record, whatever else the file holds. */
  function LastState(lines: seq<Line>, tail: Tail): Option<JournalState> {
    if tail.Unterminated? then Some(tail.state)
    else if lines == [] then None
    else if lines[|lines| - 1].Record? then Some(lines[|lines| - 1].state)
    else if lines[|lines| - 1].begins.Some? then lines[|lines| - 1].begins
    else LastState(lines[..|lines| - 1], Clean)
  }

  /** A history stays legal exactly when the transition function allows the next record. */
  lemma LegalExtension(states: seq<JournalState>, next: JournalState)
    requires states == [] || LegalHistory(states)
    ensures LegalHistory(states + [next]) <==>
            ValidTransition(if states == [] then None else Some(states[|states| - 1]), next)
  {
    assert forall s: seq<JournalState> {:trigger |s|} :: |s| == 3 ==> s == [s[0], s[1], s[2]];
    if |states| == 1 { assert states == [Prepared]; }
    if |states| == 2 { assert states == [Prepared, Committing]; }
  }

  lemma StatesNext(lines: seq<Line>, n: nat)
    requires n < |lines| && AllRecords(lines[..n]) && lines[n].Record?
    ensures AllRecords(lines[..n + 1]) && States(lines[..n + 1]) == States(lines[..n]) + [lines[n].state]
  {
    assert lines[..n + 1] == lines[..n] + [lines[n]];
    var a, b := States(lines[..n + 1]), States(lines[..n]) + [lines[n].state];
    forall i | 0 <= i < |a| ensures a[i] == b[i] {
      assert a[i] == lines[..n + 1][i].state;
    }
  }

  lemma HistoryPrefix(lines: seq<Line>, tail: Tail, n: nat)
    requires AllRecords(lines) && LegalHistory(History(lines, tail)) && 0 < n <= |lines|
    ensures LegalHistory(States(lines[..n]))
  {
    assert States(lines[..n]) == History(lines, tail)[..n];
  }

  /** `read_journal` after the header was parsed: the record loop. It accepts exactly the readable
      journals and returns their last record. */
  method ReadJournal(j: Journal) returns (r: Result<(Header, JournalState)>)
    ensures r.Ok? <==> Readable(j)
    ensures r.Ok? ==> r.value.0 == j.header && Some(r.value.1) == LastState(j.lines, j.tail)
    ensures r.Err? && j.Journal? ==> r.error in {RecoveryIncomplete, FileSetPath}
  {
    if j.Unreadable? {
      var code: ErrorCode := *;  // no header line, or one that is not canonical JSON
      return Err(code);
    }
    var valid := ValidateHeader(j.header);
    if valid.Failed? { return Err(valid.code); }
    var state: Option<JournalState> := None;
    for i := 0 to |j.lines|
      invariant AllRecords(j.lines[..i])
      invariant i == 0 ==> state == None
      invariant i > 0 ==> LegalHistory(States(j.lines[..i])) && state == Some(j.lines[i - 1].state)
    {
      if j.lines[i].Fragment? { return Err(RecoveryIncomplete); }
      StatesNext(j.lines, i);
      LegalExtension(States(j.lines[..i]), j.lines[i].state);
      if Readable(j) { HistoryPrefix(j.lines, j.tail, i + 1); }
      if !ValidTransition(state, j.lines[i].state) {
        return Err(RecoveryIncomplete);
      }
      state := Some(j.lines[i].state);
    }
    assert j.lines[..|j.lines|] == j.lines;
    if j.tail.Unterminated? {
      LegalExtension(States(j.lines), j.tail.state);
      if !ValidTransition(state, j.tail.state) { return Err(RecoveryIncomplete); }
      state := Some(j.tail.state);
    } else {
      assert History(j.lines, j.tail) == States(j.lines);
    }
    if state.None? { return Err(RecoveryIncomplete); }
    return Ok((j.header, state.value));
  }

  // ---- appending --------------------------------------------------------------------------

  /** `append_state` that completes: on a clean file a new record; after torn bytes the record
      becomes the end of a line that is not a record. */
  function Appended(j: Journal, state: JournalState): Journal
    requires j.Journal?
  {
    var line := match j.tail
      case Clean => Record(state)
      case Torn => Fragment(None)
      case Unterminated(s) => Fragment(Some(s));
    j.(lines := j.lines + [line], tail := Clean)
  }

  /** `append_state` to a clean file cut short after some of its bytes. `whole` says that every byte
      except the newline was written. */
  function TornAppend(j: Journal, state: JournalState, whole: bool): Journal
    requires j.Journal? && j.tail.Clean?
  {
    j.(tail := if whole then Unterminated(state) else Torn)
  }

  lemma LastStateOfAppended(j: Journal, state: JournalState)
    requires j.Journal?
    ensures LastState(Appended(j, state).lines, Clean) == if j.tail.Clean? then Some(state) else LastState(j.lines, j.tail)
  {
    var k := Appended(j, state);
    assert k.lines[..|k.lines| - 1] == j.lines;
    assert LastState(j.lines, Torn) == LastState(j.lines, Clean);
  }

  /** After an append the file stays readable exactly when it had no torn bytes and the transition
      is allowed; an append after torn bytes is never read back. */
  lemma AppendStaysReadable(j: Journal, state: JournalState)
    requires Readable(j)
    ensures Readable(Appended(j, state)) <==> j.tail.Clean? && ValidTransition(LastState(j.lines, j.tail), state)
  {
    var k := Appended(j, state);
    if j.tail.Clean? {
      assert History(j.lines, j.tail) == States(j.lines);
      LegalExtension(States(j.lines), state);
      assert States(k.lines) == States(j.lines) + [state];
      assert History(k.lines, k.tail) == States(k.lines);
    } else {
      assert k.lines[|j.lines|].Fragment?;
    }
  }

  /** Recovery of a Committing job first appends RollingBack. It can be restarted after that exactly
      when the journal had no bytes after its last newline. */
  lemma RollbackMarkerIsReadable(j: Journal)
    requires Readable(j) && LastState(j.lines, j.tail) == Some(Committing)
    ensures Readable(Appended(j, RollingBack)) <==> j.tail.Clean?
  {
    AppendStaysReadable(j, RollingBack);
  }
}
