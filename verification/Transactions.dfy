/** The journaled file-set transaction: prepare, commit and recovery over a file system on which
    every primitive can fail or lose power before or after its effect. */
module Transactions {
  import opened Outcomes
  import opened Journals
  import opened Disks

  /** What a commit reports; `Interrupted` is a power loss, after which nobody hears a report. */
  datatype Commit = CommitOk(cleanupPending: bool) | CommitErr(code: ErrorCode) | Interrupted

  datatype Recovery = Recovery(discarded: seq<string>, rolledBack: seq<string>, committed: seq<string>)

  /** Every file is as in `a` or as in `b`, or is missing if gaps are allowed. */
  ghost predicate Between(now: Files, a: Files, b: Files, gaps: bool) {
    forall t :: || Lookup(now, t) == Lookup(a, t)
                || Lookup(now, t) == Lookup(b, t)
                || (gaps && t !in now)
  }

  /** Recovery reads the job's journal, and it belongs to the directory it is in. */
  ghost predicate Recoverable(id: string, f: JobFiles) {
    f.journal.Some? ==> Readable(f.journal.value) && f.journal.value.header.jobId == id
  }

  /** Every job can be recovered, however often recovery is interrupted. */
  ghost predicate Restartable(d: Disk) {
    forall id :: id in d.jobs ==> RestartableJob(id, d.jobs[id])
  }

  /** Recovery appends a record only to the journal of a Committing job, so only that one must not end in
      torn bytes. */
  ghost predicate RestartableJob(id: string, f: JobFiles) {
    Recoverable(id, f) && (HasHeader(f) && State(f) == Some(Committing) ==> f.journal.value.tail.Clean?)
  }

  /** The snapshots taken by prepare still describe the targets. */
  ghost predicate SnapshotsMatch(h: Header, targets: Files) {
    forall k :: 0 <= k < |h.entries| ==> SnapshotMatches(h, targets, k)
  }

  ghost predicate SnapshotMatches(h: Header, targets: Files, k: nat)
    requires k < |h.entries|
  {
    h.entries[k].original == SnapshotOf(targets, TargetAt(h, k))
  }

  function SnapshotOf(targets: Files, t: Target): Option<Snapshot> {
    if t in targets then Some(targets[t].snapshot) else None
  }

  /** A replacement uses the same number for its payload and for its backup. */
  ghost predicate IndexesAgree(h: Header) {
    forall k :: 0 <= k < |h.entries| && h.entries[k].action.Replace? ==>
      h.entries[k].preparedIndex == Some(h.entries[k].transactionIndex)
  }

  ghost predicate PayloadComplete(h: Header, payload: map<nat, File>) {
    forall k :: 0 <= k < |h.entries| ==> HasPayload(h, k, payload)
  }

  predicate HasPayload(h: Header, k: nat, payload: map<nat, File>)
    requires k < |h.entries|
  {
    h.entries[k].action.Replace? ==> h.entries[k].transactionIndex in payload
  }

  /** The progress of `apply_entries`: entries below `n` are new, the others as before. */
  ghost predicate Applying(d: Disk, id: string, h: Header, n: nat, base: Files, payload: map<nat, File>) {
    && n <= |h.entries|
    && id in d.jobs && HasHeader(d.jobs[id]) && Head(d.jobs[id]) == h
    && ChangesOnly(h, base, d.targets)
    && (forall k :: 0 <= k < n ==> Lookup(d.targets, TargetAt(h, k)) == NewFile(h, k, payload))
    && (forall k :: n <= k < |h.entries| ==> Untouched(d, id, h, k, base, payload))
  }

  ghost predicate Untouched(d: Disk, id: string, h: Header, k: nat, base: Files, payload: map<nat, File>)
    requires k < |h.entries| && id in d.jobs
  {
    var index := h.entries[k].transactionIndex;
    && Lookup(d.targets, TargetAt(h, k)) == Lookup(base, TargetAt(h, k))
    && index !in d.jobs[id].backups
    && Lookup(d.jobs[id].prepared, index) == Lookup(payload, index)
  }

  /** One entry applied: its target is new, and only its own files changed. */
  ghost predicate AppliesEntry(d: Disk, e: Disk, id: string, h: Header, k: nat, payload: map<nat, File>)
    requires k < |h.entries|
  {
    var index := h.entries[k].transactionIndex;
    && id in d.jobs && id in e.jobs
    && e.jobs[id].journal == d.jobs[id].journal
    && e.targets - {TargetAt(h, k)} == d.targets - {TargetAt(h, k)}
    && e.jobs[id].backups - {index} == d.jobs[id].backups - {index}
    && e.jobs[id].prepared - {index} == d.jobs[id].prepared - {index}
    && Lookup(e.targets, TargetAt(h, k)) == NewFile(h, k, payload)
  }

  lemma ApplyingNext(d: Disk, e: Disk, id: string, h: Header, n: nat, base: Files, payload: map<nat, File>)
    requires Applying(d, id, h, n, base, payload) && n < |h.entries|
    requires DistinctPaths(h.entries) && DistinctIndexes(h.entries)
    requires AppliesEntry(d, e, id, h, n, payload)
    ensures Applying(e, id, h, n + 1, base, payload)
  {
    var t, index := TargetAt(h, n), h.entries[n].transactionIndex;
    MinusKeeps(e.targets, d.targets, t);
    MinusKeeps(e.jobs[id].backups, d.jobs[id].backups, index);
    MinusKeeps(e.jobs[id].prepared, d.jobs[id].prepared, index);
    assert t in ManagedBy(h);
    forall k | 0 <= k < |h.entries| && k != n
      ensures Lookup(e.targets, TargetAt(h, k)) == Lookup(d.targets, TargetAt(h, k))
      ensures n < k ==> Untouched(e, id, h, k, base, payload)
    {
      DistinctTargets(h, k, n);
      if n < k {
        assert Untouched(d, id, h, k, base, payload);
        assert Lookup(e.jobs[id].backups, h.entries[k].transactionIndex) == Lookup(d.jobs[id].backups, h.entries[k].transactionIndex);
      }
    }
  }

  /** A fully applied job has turned `base` into the new files. */
  lemma FullyApplied(d: Disk, id: string, h: Header, base: Files, payload: map<nat, File>)
    requires DistinctPaths(h.entries) && Applying(d, id, h, |h.entries|, base, payload)
    ensures d.targets == Applied(base, h, payload)
  {
    var result := Applied(base, h, payload);
    forall t ensures Lookup(d.targets, t) == Lookup(result, t) {
      if t in ManagedBy(h) {
        var k :| 0 <= k < |h.entries| && t == TargetAt(h, k);
      }
    }
    SameFiles(d.targets, result);
  }

  // ---- what the journal records mean to recovery ------------------------------------------

  /** Recording Committing changes nothing for recovery: the snapshots match and no backup exists. */
  lemma CommittingKeepsRecovery(d: Disk, id: string, j: Journal, goal: Files)
    requires Sound(d) && Restores(d, goal) && id in d.jobs && HasHeader(d.jobs[id])
    requires !Active(d.jobs[id]) && d.jobs[id].backups == map[]
    requires j.Journal? && j.header == Head(d.jobs[id]) && LastState(j.lines, j.tail) == Some(Committing)
    requires ValidHeader(j.header) && Owns(d, id, j.header) && SnapshotsMatch(j.header, d.targets)
    ensures Sound(WithJournal(d, id, j)) && Restores(WithJournal(d, id, j), goal)
  {
    var f, h := d.jobs[id].(journal := Some(j)), j.header;
    forall k | 0 <= k < |h.entries| ensures Lookup(goal, TargetAt(h, k)) == Settled(f, d.targets, k) {
      assert SnapshotMatches(h, d.targets, k);
      assert TargetAt(h, k) in ManagedBy(h);
      assert !Managed(d, TargetAt(h, k));
    }
    OwnStep(d, id, f, d.targets, goal);
    assert WithJournal(d, id, j) == Disk(d.targets, d.jobs[id := f]);
  }

  /** Recording RollingBack, or leaving torn bytes, keeps an unfinished job unfinished. */
  lemma MarkerKeepsRecovery(d: Disk, id: string, j: Journal, goal: Files)
    requires Sound(d) && Restores(d, goal) && id in d.jobs && Active(d.jobs[id])
    requires j.Journal? && j.header == Head(d.jobs[id])
    requires LastState(j.lines, j.tail) in {Some(Committing), Some(RollingBack)}
    ensures Sound(WithJournal(d, id, j)) && Restores(WithJournal(d, id, j), goal)
  {
    var f := d.jobs[id].(journal := Some(j));
    assert JobRestores(d.jobs[id], d.targets, goal);
    assert forall k :: 0 <= k < |j.header.entries| ==> Settled(f, d.targets, k) == Settled(d.jobs[id], d.targets, k);
    OwnPaths(d, id);
    OwnStep(d, id, f, d.targets, goal);
    assert WithJournal(d, id, j) == Disk(d.targets, d.jobs[id := f]);
  }

  /** The durable Committed record is the one step that changes what recovery leaves: from the old
      files to the new ones, all at once. */
  lemma CommittedIsTheSwitch(d: Disk, id: string, j: Journal, goal: Files, base: Files, payload: map<nat, File>)
    requires Sound(d) && Restores(d, goal) && id in d.jobs && Active(d.jobs[id])
    requires j.Journal? && j.header == Head(d.jobs[id]) && LastState(j.lines, j.tail) == Some(Committed)
    requires ValidHeader(j.header)
    requires Applying(d, id, j.header, |j.header.entries|, base, payload)
    ensures Sound(WithJournal(d, id, j)) && Restores(WithJournal(d, id, j), Applied(goal, j.header, payload))
  {
    var e := WithJournal(d, id, j);
    FinishedIsInactive(d, id, j);
    AppliedIsThere(d, id, j.header, base, payload, goal);
    Retire(d, id, e, goal, Applied(goal, j.header, payload));
  }

  lemma FinishedIsInactive(d: Disk, id: string, j: Journal)
    requires id in d.jobs && j.Journal? && LastState(j.lines, j.tail) == Some(Committed)
    ensures ActiveJobs(WithJournal(d, id, j)) == ActiveJobs(d) - {id}
  {}

  /** Once every entry is applied, the new files are where the targets are. */
  lemma AppliedIsThere(d: Disk, id: string, h: Header, base: Files, payload: map<nat, File>, goal: Files)
    requires DistinctPaths(h.entries) && Applying(d, id, h, |h.entries|, base, payload)
    ensures forall k :: 0 <= k < |h.entries| ==>
              Lookup(Applied(goal, h, payload), TargetAt(h, k)) == Lookup(d.targets, TargetAt(h, k))
  {}

  /** A journal write that leaves the job finished or not started. */
  lemma IdleWriteKeepsRecovery(d: Disk, e: Disk, id: string, goal: Files)
    requires Sound(d) && Restores(d, goal)
    requires id in d.jobs ==> !Active(d.jobs[id])
    requires id in e.jobs && !Active(e.jobs[id]) && SoundJob(e.jobs[id])
    requires e.targets == d.targets && e.jobs == d.jobs[id := e.jobs[id]]
    ensures Sound(e) && Restores(e, goal)
  {
    assert ActiveJobs(e) == ActiveJobs(d);
    UnrelatedStep(d, e, goal);
  }
}
