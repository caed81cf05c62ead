/** What the guarantees of the file-set transaction rest on: for each assumption about faults, what
    recovery does when it fails. */
module FaultModel {
  import opened Outcomes
  import opened Journals
  import opened Disks
  import opened Transactions
  import opened FileSetJobs

  /** The disk after an append that is durable but reports failure, with the rollback it starts stopped
      after the deletion of its k-th target. */
  ghost function LostDisk(d: Disk, h: Header, k: nat): Disk
    requires h.jobId in d.jobs && HasHeader(d.jobs[h.jobId]) && k < |h.entries|
  {
    Deleted(WithJournal(d, h.jobId, Appended(d.jobs[h.jobId].journal.value, Committed)), TargetAt(h, k))
  }

  /** An append that is durable but reports failure makes commit start a rollback under a Committed
      record. If power is lost after the rollback deleted one replaced target, recovery leaves neither
      the old files nor the new ones. */
  lemma LyingAppendLosesAFile(d: Disk, h: Header, before: Files, payload: map<nat, File>, k: nat)
    requires Running(d, h, before) && Recoverable(h.jobId, d.jobs[h.jobId])
    requires State(d.jobs[h.jobId]) == Some(Committing) && d.jobs[h.jobId].journal.value.tail.Clean?
    requires k < |h.entries| && h.entries[k].original.Some? && h.entries[k].transactionIndex in d.jobs[h.jobId].backups
    requires NewFile(h, k, payload).Some?
    ensures var lost := LostDisk(d, h, k);
      && Recoverable(h.jobId, lost.jobs[h.jobId]) && State(lost.jobs[h.jobId]) == Some(Committed)
      && !Restores(lost, before) && !Restores(lost, Applied(before, h, payload))
  {
    var t := TargetAt(h, k);
    LostIsCommitted(d, h, k);
    LostIsUnmanaged(d, h, k);
    OriginalIsOld(d, h, k, before);
    AppliedAt(before, h, payload, k);
    LostIsNoGoal(LostDisk(d, h, k), t, before);
    LostIsNoGoal(LostDisk(d, h, k), t, Applied(before, h, payload));
  }

  lemma LostIsCommitted(d: Disk, h: Header, k: nat)
    requires h.jobId in d.jobs && HasHeader(d.jobs[h.jobId]) && Recoverable(h.jobId, d.jobs[h.jobId])
    requires State(d.jobs[h.jobId]) == Some(Committing) && d.jobs[h.jobId].journal.value.tail.Clean? && k < |h.entries|
    ensures var lost := LostDisk(d, h, k).jobs[h.jobId];
      Recoverable(h.jobId, lost) && HasHeader(lost) && State(lost) == Some(Committed)
  {
    var j := d.jobs[h.jobId].journal.value;
    LastStateOfAppended(j, Committed);
    AppendStaysReadable(j, Committed);
  }

  lemma LostIsUnmanaged(d: Disk, h: Header, k: nat)
    requires Separated(d) && h.jobId in ActiveJobs(d) && Head(d.jobs[h.jobId]) == h && k < |h.entries|
    requires State(LostDisk(d, h, k).jobs[h.jobId]) == Some(Committed)
    ensures TargetAt(h, k) !in LostDisk(d, h, k).targets && !Managed(LostDisk(d, h, k), TargetAt(h, k))
  {
    OwnPaths(d, h.jobId);
    OnlyOthersManage(d, LostDisk(d, h, k), h, TargetAt(h, k));
  }

  lemma OriginalIsOld(d: Disk, h: Header, k: nat, before: Files)
    requires Running(d, h, before) && k < |h.entries| && h.entries[k].original.Some?
    requires h.entries[k].transactionIndex in d.jobs[h.jobId].backups
    ensures Lookup(before, TargetAt(h, k)).Some?
  {
    GoalOfEntry(d, h, k, before);
  }

  lemma AppliedAt(before: Files, h: Header, payload: map<nat, File>, k: nat)
    requires DistinctPaths(h.entries) && k < |h.entries|
    ensures Lookup(Applied(before, h, payload), TargetAt(h, k)) == NewFile(h, k, payload)
  {
    assert TargetAt(h, k) in ManagedBy(h);
  }

  /** A path that no job manages is left as it is. */
  lemma LostIsNoGoal(lost: Disk, t: Target, goal: Files)
    requires !Managed(lost, t) && t !in lost.targets && t in goal
    ensures !Restores(lost, goal)
  {}

  /** Once its job is committed nothing manages a path. */
  lemma OnlyOthersManage(d: Disk, lost: Disk, h: Header, t: Target)
    requires h.jobId in d.jobs && h.jobId in lost.jobs && lost.jobs - {h.jobId} == d.jobs - {h.jobId}
    requires Owns(d, h.jobId, h) && t in ManagedBy(h) && !Active(lost.jobs[h.jobId])
    ensures !Managed(lost, t)
  {
    MinusKeeps<string, JobFiles>(lost.jobs, d.jobs, h.jobId);
    forall id | id in ActiveJobs(lost) ensures id in ActiveJobs(d) && id != h.jobId && lost.jobs[id] == d.jobs[id] {
      assert Lookup(lost.jobs, id) == Lookup(d.jobs, id);
    }
  }

  lemma SharedPathsAgree(d: Disk, goal: Files, a: string, b: string, i: nat, j: nat)
    requires Restores(d, goal) && a in ActiveJobs(d) && b in ActiveJobs(d)
    requires i < |Head(d.jobs[a]).entries| && j < |Head(d.jobs[b]).entries|
    requires TargetAt(Head(d.jobs[a]), i) == TargetAt(Head(d.jobs[b]), j)
    ensures Settled(d.jobs[a], d.targets, i) == Settled(d.jobs[b], d.targets, j)
  {
    assert JobRestores(d.jobs[a], d.targets, goal) && JobRestores(d.jobs[b], d.targets, goal);
  }

  /** Two unfinished jobs that share a path and would leave different files there have no common
      result: recovery then depends on the order of the jobs. */
  lemma OverlappingJobsHaveNoResult(d: Disk, a: string, b: string, i: nat, j: nat)
    requires a in ActiveJobs(d) && b in ActiveJobs(d)
    requires i < |Head(d.jobs[a]).entries| && j < |Head(d.jobs[b]).entries|
    requires TargetAt(Head(d.jobs[a]), i) == TargetAt(Head(d.jobs[b]), j)
    requires Settled(d.jobs[a], d.targets, i) != Settled(d.jobs[b], d.targets, j)
    ensures forall goal :: !Restores(d, goal)
  {
    forall goal ensures !Restores(d, goal) {
      if Restores(d, goal) { SharedPathsAgree(d, goal, a, b, i, j); }
    }
  }

  /** A journal whose first record was cut short blocks recovery unless only the newline is missing. */
  lemma CutShortNewJournal(h: Header, tail: Tail)
    requires ValidHeader(h)
    ensures Readable(Journal(h, [], tail)) <==> tail == Unterminated(Prepared)
  {
    assert States([]) == [];
    if tail.Unterminated? {
      LegalExtension([], tail.state);
      assert History([], tail) == [] + [tail.state];
    } else {
      assert History([], tail) == [];
    }
  }

  /** With whole-record appends every recovery can be restarted; a torn RollingBack record, or a
      RollingBack record after any torn bytes, is what a second recovery refuses. */
  lemma TornMarkerBlocksRestart(j: Journal, whole: bool)
    requires Readable(j) && j.tail.Clean? && LastState(j.lines, j.tail) == Some(Committing)
    ensures var torn := TornAppend(j, RollingBack, whole);
      && Readable(torn)
      && LastState(torn.lines, torn.tail) == Some(if whole then RollingBack else Committing)
      && (!whole ==> !Readable(Appended(torn, RollingBack)))
  {
    var torn := TornAppend(j, RollingBack, whole);
    assert LastState(j.lines, Torn) == LastState(j.lines, Clean);
    assert History(j.lines, j.tail) == States(j.lines);
    if whole {
      LegalExtension(States(j.lines), RollingBack);
      assert States(j.lines)[|j.lines| - 1] == Committing;
      assert History(torn.lines, torn.tail) == States(j.lines) + [RollingBack];
    } else {
      assert History(torn.lines, torn.tail) == States(j.lines);
      RollbackMarkerIsReadable(torn);
    }
  }
}
