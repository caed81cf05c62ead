/** Commit, rollback and recovery of file-set jobs. */
module FileSetJobs {
  import opened Outcomes
  import opened Journals
  import opened Disks
  import opened Transactions
  import opened FileSystems

  /** Between `d` and `e` only job `id` and the paths of `h` may differ. */
  ghost predicate OnlyJob(d: Disk, e: Disk, id: string, h: Header) {
    e.jobs - {id} == d.jobs - {id} && ChangesOnly(h, d.targets, e.targets)
  }

  ghost predicate SameJournal(d: Disk, e: Disk, id: string) {
    id in d.jobs && id in e.jobs && e.jobs[id].journal == d.jobs[id].journal
  }

  /** The standing assumptions while a job is being applied or rolled back. */
  ghost predicate Running(d: Disk, h: Header, goal: Files) {
    && ValidHeader(h)
    && Sound(d) && Restores(d, goal)
    && h.jobId in d.jobs && Active(d.jobs[h.jobId]) && Head(d.jobs[h.jobId]) == h
  }

  lemma BetweenWhileApplying(d: Disk, e: Disk, h: Header, k: nat, base: Files, payload: map<nat, File>, gaps: bool)
    requires ValidHeader(h) && Applying(d, h.jobId, h, k, base, payload) && k < |h.entries|
    requires e.targets - {TargetAt(h, k)} == d.targets - {TargetAt(h, k)}
    requires var now := Lookup(e.targets, TargetAt(h, k));
      || now == Lookup(base, TargetAt(h, k)) || now == NewFile(h, k, payload) || (gaps && now.None?)
    ensures Between(e.targets, base, Applied(base, h, payload), gaps)
  {
    MinusKeeps(e.targets, d.targets, TargetAt(h, k));
    forall t ensures || Lookup(e.targets, t) == Lookup(base, t)
                     || Lookup(e.targets, t) == Lookup(Applied(base, h, payload), t)
                     || (gaps && t !in e.targets)
    {
      if t != TargetAt(h, k) { OtherTargetWhileApplying(d, h, k, base, payload, t); }
    }
  }

  /** A target other than the one at work is old or new. */
  lemma OtherTargetWhileApplying(d: Disk, h: Header, k: nat, base: Files, payload: map<nat, File>, t: Target)
    requires ValidHeader(h) && Applying(d, h.jobId, h, k, base, payload) && k < |h.entries| && t != TargetAt(h, k)
    ensures Lookup(d.targets, t) in {Lookup(base, t), Lookup(Applied(base, h, payload), t)}
  {
    var after := Applied(base, h, payload);
    if t in ManagedBy(h) {
      var j :| 0 <= j < |h.entries| && t == TargetAt(h, j);
      assert Lookup(after, TargetAt(h, j)) == NewFile(h, j, payload);
      if j > k {
        assert Untouched(d, h.jobId, h, j, base, payload);
      } else {
        assert Lookup(d.targets, TargetAt(h, j)) == NewFile(h, j, payload);
      }
    } else {
      assert Lookup(base, t) == Lookup(d.targets, t);
    }
  }

  // ---- primitives on one entry of a running job -------------------------------------------

  method BackUpEntry(fs: FileSystem, h: Header, k: nat, ghost goal: Files) returns (r: Outcome)
    requires k < |h.entries| && Running(fs.Contents(), h, goal)
    requires h.entries[k].original.Some? && h.entries[k].transactionIndex !in fs.jobs[h.jobId].backups
    requires SnapshotMatches(h, fs.targets, k)
    modifies fs
    ensures fs.Ended(r, {})
    ensures Running(fs.Contents(), h, goal)
    ensures var after := BackedUp(old(fs.Contents()), h.jobId, h.entries[k].transactionIndex, TargetAt(h, k));
      (r.Done? ==> fs.Contents() == after) && (fs.Contents() == old(fs.Contents()) || fs.Contents() == after)
    ensures fs.faults == old(fs.faults) ==> r.Done?
  {
    BackUpKeepsRecovery(fs.Contents(), h.jobId, k, goal);
    r := fs.RenameTargetToBackup(h.jobId, h.entries[k].transactionIndex, TargetAt(h, k), h.entries[k].original.value);
  }

  method InstallEntry(fs: FileSystem, h: Header, k: nat, index: nat, ghost goal: Files) returns (r: Outcome)
    requires k < |h.entries| && Running(fs.Contents(), h, goal) && TargetAt(h, k) !in fs.targets
    requires h.entries[k].original.Some? ==> h.entries[k].transactionIndex in fs.jobs[h.jobId].backups
    modifies fs
    ensures fs.Ended(r, {TransactionIo})
    ensures Running(fs.Contents(), h, goal)
    ensures (fs.Contents() == old(fs.Contents()) && !r.Done?)
      || (index in old(fs.jobs)[h.jobId].prepared
          && fs.Contents() == Installed(old(fs.Contents()), h.jobId, index, TargetAt(h, k)))
    ensures fs.faults == old(fs.faults) && index in old(fs.jobs)[h.jobId].prepared ==> r.Done?
  {
    if index in fs.jobs[h.jobId].prepared { InstallKeepsRecovery(fs.Contents(), h.jobId, k, index, goal); }
    r := fs.RenamePreparedToTarget(h.jobId, index, TargetAt(h, k));
  }

  method ReplaceEntry(fs: FileSystem, h: Header, k: nat, ghost goal: Files) returns (r: Outcome)
    requires k < |h.entries| && Running(fs.Contents(), h, goal)
    requires SnapshotMatches(h, fs.targets, k) && h.entries[k].transactionIndex !in fs.jobs[h.jobId].backups
    modifies fs
    ensures fs.Ended(r, {TransactionIo})
    ensures Running(fs.Contents(), h, goal)
    ensures var index := h.entries[k].transactionIndex;
      || (fs.Contents() == old(fs.Contents()) && !r.Done?)
      || (index in old(fs.jobs)[h.jobId].prepared
          && fs.Contents() == Replaced(old(fs.Contents()), h.jobId, index, TargetAt(h, k)))
    ensures fs.faults == old(fs.faults) && h.entries[k].transactionIndex in old(fs.jobs)[h.jobId].prepared ==> r.Done?
  {
    if h.entries[k].transactionIndex in fs.jobs[h.jobId].prepared {
      ReplaceKeepsRecovery(fs.Contents(), h.jobId, k, goal);
    }
    r := fs.AtomicReplaceTarget(h.jobId, h.entries[k].transactionIndex, TargetAt(h, k), h.entries[k].original);
  }

  // ---- apply ------------------------------------------------------------------------------

  /** Where one round of `apply_entries` can stop: before its steps, between them, or after them. */
  ghost predicate InRound(d: Disk, e: Disk, h: Header, k: nat, gaps: bool, payload: map<nat, File>)
    requires k < |h.entries|
  {
    && SameJournal(d, e, h.jobId)
    && e.jobs - {h.jobId} == d.jobs - {h.jobId}
    && e.targets - {TargetAt(h, k)} == d.targets - {TargetAt(h, k)}
    && var now := Lookup(e.targets, TargetAt(h, k));
       now == Lookup(d.targets, TargetAt(h, k)) || now == NewFile(h, k, payload) || (gaps && now.None?)
  }

  lemma RoundStaysBetween(d: Disk, e: Disk, h: Header, k: nat, base: Files, payload: map<nat, File>, gaps: bool)
    requires ValidHeader(h) && Applying(d, h.jobId, h, k, base, payload) && k < |h.entries|
    requires InRound(d, e, h, k, gaps, payload)
    ensures Between(e.targets, base, Applied(base, h, payload), gaps)
    ensures OnlyJob(d, e, h.jobId, h)
  {
    assert Untouched(d, h.jobId, h, k, base, payload);
    BetweenWhileApplying(d, e, h, k, base, payload, gaps);
    assert TargetAt(h, k) in ManagedBy(h);
    MinusKeeps(e.targets, d.targets, TargetAt(h, k));
  }

  lemma ReplacedIsApplied(d: Disk, h: Header, k: nat, payload: map<nat, File>)
    requires k < |h.entries| && h.jobId in d.jobs && IndexesAgree(h) && h.entries[k].action.Replace?
    requires var index := h.entries[k].transactionIndex;
      index in d.jobs[h.jobId].prepared && Lookup(payload, index) == Lookup(d.jobs[h.jobId].prepared, index)
    ensures var e := Replaced(d, h.jobId, h.entries[k].transactionIndex, TargetAt(h, k));
      AppliesEntry(d, e, h.jobId, h, k, payload) && InRound(d, e, h, k, false, payload)
  {}

  lemma BackedUpIsInRound(d: Disk, h: Header, k: nat, gaps: bool, payload: map<nat, File>)
    requires k < |h.entries| && h.jobId in d.jobs && TargetAt(h, k) in d.targets
    requires gaps || NewFile(h, k, payload).None?
    ensures var e := BackedUp(d, h.jobId, h.entries[k].transactionIndex, TargetAt(h, k));
      InRound(d, e, h, k, gaps, payload)
      && (NewFile(h, k, payload).None? ==> AppliesEntry(d, e, h.jobId, h, k, payload))
  {}

  /** `m` is `d` with the original moved away, if there was one. */
  lemma InstalledIsApplied(d: Disk, m: Disk, h: Header, k: nat, gaps: bool, payload: map<nat, File>)
    requires k < |h.entries| && h.jobId in d.jobs && IndexesAgree(h) && h.entries[k].action.Replace?
    requires m == d || (TargetAt(h, k) in d.targets && m == BackedUp(d, h.jobId, h.entries[k].transactionIndex, TargetAt(h, k)))
    requires var index := h.entries[k].transactionIndex;
      index in d.jobs[h.jobId].prepared && Lookup(payload, index) == Lookup(d.jobs[h.jobId].prepared, index)
    ensures var e := Installed(m, h.jobId, h.entries[k].transactionIndex, TargetAt(h, k));
      AppliesEntry(d, e, h.jobId, h, k, payload) && InRound(d, e, h, k, gaps, payload)
  {}

  /** One round of `apply_entries`. */
  method ApplyEntry(fs: FileSystem, h: Header, k: nat, ghost goal: Files, ghost base: Files, ghost payload: map<nat, File>)
    returns (r: Outcome)
    requires k < |h.entries| && Running(fs.Contents(), h, goal)
    requires Applying(fs.Contents(), h.jobId, h, k, base, payload) && IndexesAgree(h) && SnapshotMatches(h, base, k)
    modifies fs
    ensures fs.Ended(r, {TransactionIo})
    ensures Running(fs.Contents(), h, goal)
    ensures InRound(old(fs.Contents()), fs.Contents(), h, k, !fs.atomic, payload)
    ensures r.Done? ==> AppliesEntry(old(fs.Contents()), fs.Contents(), h.jobId, h, k, payload)
    ensures fs.faults == old(fs.faults) && HasPayload(h, k, payload) ==> r.Done?
    ensures r.Done? ==> HasPayload(h, k, payload)
  {
    var e := h.entries[k];
    assert WellFormedEntry(e) && Untouched(fs.Contents(), h.jobId, h, k, base, payload);
    if e.action.Replace? && fs.atomic {
      r := ReplaceInOneStep(fs, h, k, goal, payload);
    } else {
      r := ReplaceInTwoSteps(fs, h, k, goal, payload);
    }
  }

  method ReplaceInOneStep(fs: FileSystem, h: Header, k: nat, ghost goal: Files, ghost payload: map<nat, File>)
    returns (r: Outcome)
    requires k < |h.entries| && Running(fs.Contents(), h, goal) && IndexesAgree(h) && h.entries[k].action.Replace?
    requires SnapshotMatches(h, fs.targets, k) && h.entries[k].transactionIndex !in fs.jobs[h.jobId].backups
    requires var index := h.entries[k].transactionIndex; Lookup(payload, index) == Lookup(fs.jobs[h.jobId].prepared, index)
    modifies fs
    ensures fs.Ended(r, {TransactionIo})
    ensures Running(fs.Contents(), h, goal)
    ensures InRound(old(fs.Contents()), fs.Contents(), h, k, false, payload)
    ensures r.Done? ==> AppliesEntry(old(fs.Contents()), fs.Contents(), h.jobId, h, k, payload)
    ensures fs.faults == old(fs.faults) && HasPayload(h, k, payload) ==> r.Done?
    ensures r.Done? ==> HasPayload(h, k, payload)
  {
    if h.entries[k].transactionIndex in fs.jobs[h.jobId].prepared {
      ReplacedIsApplied(fs.Contents(), h, k, payload);
    }
    r := ReplaceEntry(fs, h, k, goal);
  }

  method ReplaceInTwoSteps(fs: FileSystem, h: Header, k: nat, ghost goal: Files, ghost payload: map<nat, File>)
    returns (r: Outcome)
    requires k < |h.entries| && Running(fs.Contents(), h, goal) && IndexesAgree(h)
    requires fs.atomic ==> h.entries[k].action.Remove?
    requires SnapshotMatches(h, fs.targets, k) && h.entries[k].transactionIndex !in fs.jobs[h.jobId].backups
    requires WellFormedEntry(h.entries[k])
    requires var index := h.entries[k].transactionIndex; Lookup(payload, index) == Lookup(fs.jobs[h.jobId].prepared, index)
    modifies fs
    ensures fs.Ended(r, {TransactionIo})
    ensures Running(fs.Contents(), h, goal)
    ensures InRound(old(fs.Contents()), fs.Contents(), h, k, !fs.atomic, payload)
    ensures r.Done? ==> AppliesEntry(old(fs.Contents()), fs.Contents(), h.jobId, h, k, payload)
    ensures fs.faults == old(fs.faults) && HasPayload(h, k, payload) ==> r.Done?
    ensures r.Done? ==> HasPayload(h, k, payload)
  {
    ghost var d := fs.Contents();
    var e := h.entries[k];
    if e.original.Some? {
      BackedUpIsInRound(d, h, k, !fs.atomic, payload);
      r := BackUpEntry(fs, h, k, goal);
      if !r.Done? { return; }
    }
    if e.action.Replace? {
      if e.transactionIndex in d.jobs[h.jobId].prepared {
        InstalledIsApplied(d, fs.Contents(), h, k, !fs.atomic, payload);
      }
      r := InstallEntry(fs, h, k, e.preparedIndex.value, goal);
      return;
    }
    r := Done;
  }

  lemma OnlyJobTransitive(a: Disk, b: Disk, c: Disk, id: string, h: Header)
    requires OnlyJob(a, b, id, h) && OnlyJob(b, c, id, h)
    ensures OnlyJob(a, c, id, h)
  {}

  lemma NothingAppliedYet(d: Disk, h: Header)
    requires ValidHeader(h) && h.jobId in d.jobs && HasHeader(d.jobs[h.jobId]) && Head(d.jobs[h.jobId]) == h
    requires d.jobs[h.jobId].backups == map[]
    ensures Applying(d, h.jobId, h, 0, d.targets, d.jobs[h.jobId].prepared)
  {}

  /** `apply_entries`: wherever it stops, recovery still leaves `goal` and every path is old or new
      (or, without atomic replacement, missing). If it completes, every path is new. */
  method ApplyEntries(fs: FileSystem, h: Header, ghost goal: Files) returns (r: Outcome)
    requires Running(fs.Contents(), h, goal) && IndexesAgree(h) && SnapshotsMatch(h, fs.targets)
    requires fs.jobs[h.jobId].backups == map[]
    modifies fs
    ensures fs.Ended(r, {TransactionIo})
    ensures Running(fs.Contents(), h, goal)
    ensures SameJournal(old(fs.Contents()), fs.Contents(), h.jobId) && OnlyJob(old(fs.Contents()), fs.Contents(), h.jobId, h)
    ensures Between(fs.targets, old(fs.targets), Applied(old(fs.targets), h, old(fs.jobs)[h.jobId].prepared), !fs.atomic)
    ensures r.Done? ==> Applying(fs.Contents(), h.jobId, h, |h.entries|, old(fs.targets), old(fs.jobs)[h.jobId].prepared)
    ensures fs.faults == old(fs.faults) && PayloadComplete(h, old(fs.jobs)[h.jobId].prepared) ==> r.Done?
    ensures r.Done? ==> PayloadComplete(h, old(fs.jobs)[h.jobId].prepared)
  {
    ghost var d := fs.Contents();
    ghost var base, payload := fs.targets, fs.jobs[h.jobId].prepared;
    NothingAppliedYet(d, h);
    for k := 0 to |h.entries|
      invariant fs.faults == old(fs.faults) && fs.lastError == old(fs.lastError)
      invariant Running(fs.Contents(), h, goal)
      invariant forall j :: 0 <= j < k ==> HasPayload(h, j, payload)
      invariant SameJournal(d, fs.Contents(), h.jobId) && OnlyJob(d, fs.Contents(), h.jobId, h)
      invariant Applying(fs.Contents(), h.jobId, h, k, base, payload)
      invariant Between(fs.targets, base, Applied(base, h, payload), !fs.atomic)
    {
      ghost var m := fs.Contents();
      assert SnapshotMatches(h, base, k);
      r := ApplyEntry(fs, h, k, goal, base, payload);
      RoundStaysBetween(m, fs.Contents(), h, k, base, payload, !fs.atomic);
      OnlyJobTransitive(d, m, fs.Contents(), h.jobId, h);
      if !r.Done? { return; }
      ApplyingNext(m, fs.Contents(), h.jobId, h, k, base, payload);
    }
    r := Done;
  }

  // ---- rollback ---------------------------------------------------------------------------

  /** Where one round of `rollback_entries` can stop. */
  ghost predicate InRollbackRound(d: Disk, e: Disk, h: Header, k: nat, goal: Files, gaps: bool)
    requires k < |h.entries|
  {
    && SameJournal(d, e, h.jobId)
    && e.jobs - {h.jobId} == d.jobs - {h.jobId}
    && e.targets - {TargetAt(h, k)} == d.targets - {TargetAt(h, k)}
    && e.jobs[h.jobId].backups - {h.entries[k].transactionIndex} == d.jobs[h.jobId].backups - {h.entries[k].transactionIndex}
    && var now := Lookup(e.targets, TargetAt(h, k));
       now == Lookup(d.targets, TargetAt(h, k)) || now == Lookup(goal, TargetAt(h, k)) || (gaps && now.None?)
  }

  lemma GoalOfEntry(d: Disk, h: Header, k: nat, goal: Files)
    requires Running(d, h, goal) && k < |h.entries|
    ensures Lookup(goal, TargetAt(h, k)) == Settled(d.jobs[h.jobId], d.targets, k)
  {
    assert h.jobId in ActiveJobs(d) && JobRestores(d.jobs[h.jobId], d.targets, goal);
  }

  method RemoveEntryTarget(fs: FileSystem, h: Header, k: nat, ghost goal: Files) returns (r: Outcome)
    requires k < |h.entries| && Running(fs.Contents(), h, goal)
    requires h.entries[k].original.Some? ==> h.entries[k].transactionIndex in fs.jobs[h.jobId].backups
    modifies fs
    ensures fs.Ended(r, {})
    ensures Running(fs.Contents(), h, goal)
    ensures var after := Deleted(old(fs.Contents()), TargetAt(h, k));
      (r.Done? ==> fs.Contents() == after) && (fs.Contents() == old(fs.Contents()) || fs.Contents() == after)
    ensures fs.faults == old(fs.faults) ==> r.Done?
  {
    DeleteKeepsRecovery(fs.Contents(), h.jobId, k, goal);
    r := fs.DeleteTarget(TargetAt(h, k));
  }

  /** Either form of restore; `inOneStep` may overwrite an existing target. */
  method BringBackEntry(fs: FileSystem, h: Header, k: nat, inOneStep: bool, ghost goal: Files) returns (r: Outcome)
    requires k < |h.entries| && Running(fs.Contents(), h, goal) && (inOneStep || TargetAt(h, k) !in fs.targets)
    requires h.entries[k].original.Some? && h.entries[k].transactionIndex in fs.jobs[h.jobId].backups
    modifies fs
    ensures fs.Grows()
    ensures Running(fs.Contents(), h, goal)
    ensures var after := BroughtBack(old(fs.Contents()), h.jobId, h.entries[k].transactionIndex, TargetAt(h, k));
      (r.Done? ==> fs.Contents() == after) && (fs.Contents() == old(fs.Contents()) || fs.Contents() == after)
    ensures fs.faults == old(fs.faults) ==> r.Done?
  {
    BringBackKeepsRecovery(fs.Contents(), h.jobId, k, goal);
    if inOneStep {
      r := fs.AtomicRestoreBackup(h.jobId, h.entries[k].transactionIndex, TargetAt(h, k));
    } else {
      r := fs.RestoreBackup(h.jobId, h.entries[k].transactionIndex, TargetAt(h, k));
    }
  }

  lemma BroughtBackInRound(d: Disk, m: Disk, h: Header, k: nat, goal: Files, gaps: bool)
    requires k < |h.entries| && h.jobId in d.jobs && h.entries[k].original.Some? && HasHeader(d.jobs[h.jobId])
    requires h.entries[k].transactionIndex in d.jobs[h.jobId].backups && Head(d.jobs[h.jobId]) == h
    requires Lookup(goal, TargetAt(h, k)) == Settled(d.jobs[h.jobId], d.targets, k)
    requires m == d || m == Deleted(d, TargetAt(h, k))
    ensures var e := BroughtBack(m, h.jobId, h.entries[k].transactionIndex, TargetAt(h, k));
      InRollbackRound(d, e, h, k, goal, gaps) && EntryRolledBack(e.jobs[h.jobId], e.targets, k)
  {}

  /** The branch of `rollback_entries` for an entry whose backup exists. */
  method RestoreEntry(fs: FileSystem, h: Header, k: nat, ghost goal: Files) returns (r: Outcome)
    requires k < |h.entries| && Running(fs.Contents(), h, goal)
    requires h.entries[k].original.Some? && h.entries[k].transactionIndex in fs.jobs[h.jobId].backups
    modifies fs
    ensures fs.Grows()
    ensures Running(fs.Contents(), h, goal)
    ensures InRollbackRound(old(fs.Contents()), fs.Contents(), h, k, goal, !fs.atomic)
    ensures r.Done? ==> EntryRolledBack(fs.jobs[h.jobId], fs.targets, k)
    ensures fs.faults == old(fs.faults) ==> r.Done?
  {
    ghost var d := fs.Contents();
    GoalOfEntry(d, h, k, goal);
    BroughtBackInRound(d, d, h, k, goal, !fs.atomic);
    if fs.atomic {
      r := BringBackEntry(fs, h, k, true, goal);
      return;
    }
    var present;
    r, present := fs.InspectTarget(TargetAt(h, k));
    if !r.Done? { return; }
    if present.Some? {
      r := RemoveEntryTarget(fs, h, k, goal);
      if !r.Done? { return; }
      BroughtBackInRound(d, fs.Contents(), h, k, goal, true);
    }
    r := BringBackEntry(fs, h, k, false, goal);
  }

  /** One round of `rollback_entries`: it decides from `original` and the existence of the backup. */
  method RollbackEntry(fs: FileSystem, h: Header, k: nat, ghost goal: Files) returns (r: Outcome)
    requires k < |h.entries| && Running(fs.Contents(), h, goal)
    modifies fs
    ensures fs.Grows()
    ensures Running(fs.Contents(), h, goal)
    ensures InRollbackRound(old(fs.Contents()), fs.Contents(), h, k, goal, !fs.atomic)
    ensures r.Done? ==> EntryRolledBack(fs.jobs[h.jobId], fs.targets, k)
    ensures fs.faults == old(fs.faults) ==> r.Done?
  {
    ghost var d := fs.Contents();
    GoalOfEntry(d, h, k, goal);
    var e := h.entries[k];
    var backupExists := false;
    if e.original.Some? {
      r, backupExists := fs.BackupExists(h.jobId, e.transactionIndex);
      if !r.Done? { return; }
    }
    if backupExists {
      r := RestoreEntry(fs, h, k, goal);
    } else if e.original.None? {
      var present;
      r, present := fs.InspectTarget(TargetAt(h, k));
      if !r.Done? { return; }
      if present.Some? { r := RemoveEntryTarget(fs, h, k, goal); }
    } else {
      r := Done;
    }
  }

  lemma RollbackRoundKeepsRest(d: Disk, e: Disk, h: Header, k: nat, goal: Files, gaps: bool, start: Files)
    requires ValidHeader(h) && k < |h.entries| && InRollbackRound(d, e, h, k, goal, gaps)
    requires HasHeader(d.jobs[h.jobId]) && Head(d.jobs[h.jobId]) == h
    requires Between(d.targets, start, goal, gaps)
    ensures Between(e.targets, start, goal, gaps) && OnlyJob(d, e, h.jobId, h)
    ensures forall j :: 0 <= j < |h.entries| && j != k && EntryRolledBack(d.jobs[h.jobId], d.targets, j) ==>
              EntryRolledBack(e.jobs[h.jobId], e.targets, j)
  {
    assert TargetAt(h, k) in ManagedBy(h);
    MinusKeeps(e.targets, d.targets, TargetAt(h, k));
    MinusKeeps(e.jobs[h.jobId].backups, d.jobs[h.jobId].backups, h.entries[k].transactionIndex);
    forall j | 0 <= j < |h.entries| && j != k && EntryRolledBack(d.jobs[h.jobId], d.targets, j)
      ensures EntryRolledBack(e.jobs[h.jobId], e.targets, j)
    {
      DistinctTargets(h, j, k);
      var n := h.entries[j].transactionIndex;
      assert Lookup(e.jobs[h.jobId].backups, n) == Lookup(d.jobs[h.jobId].backups, n);
      assert Lookup(e.targets, TargetAt(h, j)) == Lookup(d.targets, TargetAt(h, j));
    }
  }

  /** `rollback_entries`, last entry first: wherever it stops, recovery still leaves `goal`; if it
      completes, every path of the job is as in `goal`. */
  method RollbackEntries(fs: FileSystem, h: Header, ghost goal: Files, ghost start: Files) returns (r: Outcome)
    requires Running(fs.Contents(), h, goal) && Between(fs.targets, start, goal, !fs.atomic)
    modifies fs
    ensures fs.Grows()
    ensures Running(fs.Contents(), h, goal)
    ensures SameJournal(old(fs.Contents()), fs.Contents(), h.jobId) && OnlyJob(old(fs.Contents()), fs.Contents(), h.jobId, h)
    ensures Between(fs.targets, start, goal, !fs.atomic)
    ensures r.Done? ==> RolledBack(fs.Contents(), h.jobId)
    ensures fs.faults == old(fs.faults) ==> r.Done?
  {
    ghost var d := fs.Contents();
    r := fs.Check();
    if !r.Done? { return; }
    for k := |h.entries| downto 0
      invariant fs.Grows()
      invariant Running(fs.Contents(), h, goal)
      invariant SameJournal(d, fs.Contents(), h.jobId) && OnlyJob(d, fs.Contents(), h.jobId, h)
      invariant Between(fs.targets, start, goal, !fs.atomic)
      invariant forall j :: k <= j < |h.entries| ==> EntryRolledBack(fs.jobs[h.jobId], fs.targets, j)
    {
      ghost var m := fs.Contents();
      r := RollbackEntry(fs, h, k, goal);
      RollbackRoundKeepsRest(m, fs.Contents(), h, k, goal, !fs.atomic, start);
      OnlyJobTransitive(d, m, fs.Contents(), h.jobId, h);
      if !r.Done? { return; }
    }
    r := Done;
  }

  // ---- journal records --------------------------------------------------------------------

  /** The disk differs from `d` only in the journal of `id`. */
  ghost predicate OnlyJournal(d: Disk, e: Disk, id: string) {
    && id in d.jobs && id in e.jobs
    && e.targets == d.targets
    && e.jobs - {id} == d.jobs - {id}
    && e.jobs[id].prepared == d.jobs[id].prepared && e.jobs[id].backups == d.jobs[id].backups
  }

  lemma AppendKeepsRestartable(f: JobFiles, id: string, state: JournalState)
    requires Recoverable(id, f) && HasHeader(f) && f.journal.value.tail.Clean? && ValidTransition(State(f), state)
    ensures RestartableJob(id, f.(journal := Some(Appended(f.journal.value, state))))
  {
    AppendStaysReadable(f.journal.value, state);
  }

  /** Whatever an append of RollingBack leaves, the job is still one that recovery rolls back. */
  lemma RollbackRecordKeeps(d: Disk, h: Header, goal: Files)
    requires Running(d, h, goal)
    ensures var j := d.jobs[h.jobId].journal.value;
      && Running(WithJournal(d, h.jobId, Appended(j, RollingBack)), h, goal)
      && (j.tail.Clean? ==> forall whole :: Running(WithJournal(d, h.jobId, TornAppend(j, RollingBack, whole)), h, goal))
  {
    var j := d.jobs[h.jobId].journal.value;
    LastStateOfAppended(j, RollingBack);
    MarkerKeepsRecovery(d, h.jobId, Appended(j, RollingBack), goal);
    if j.tail.Clean? {
      forall whole ensures Running(WithJournal(d, h.jobId, TornAppend(j, RollingBack, whole)), h, goal) {
        assert LastState(j.lines, Torn) == LastState(j.lines, Clean);
        MarkerKeepsRecovery(d, h.jobId, TornAppend(j, RollingBack, whole), goal);
      }
    }
  }

  /** A step that leaves committed jobs committed and unfinished ones unfinished, and makes no others so. */
  ghost predicate SameVerdict(d: Disk, e: Disk, id: string) {
    id in e.jobs && HasHeader(e.jobs[id]) ==>
      && id in d.jobs && HasHeader(d.jobs[id])
      && (State(e.jobs[id]) == Some(Committed) <==> State(d.jobs[id]) == Some(Committed))
      && (Active(e.jobs[id]) <==> Active(d.jobs[id]))
  }

  method MarkRollingBack(fs: FileSystem, h: Header, ghost goal: Files) returns (r: Outcome)
    requires Running(fs.Contents(), h, goal)
    modifies fs
    ensures fs.Ended(r, {})
    ensures Running(fs.Contents(), h, goal) && OnlyJournal(old(fs.Contents()), fs.Contents(), h.jobId)
    ensures fs.wholeRecords && RestartableJob(h.jobId, old(fs.jobs)[h.jobId]) && State(old(fs.jobs)[h.jobId]) == Some(Committing) ==>
              RestartableJob(h.jobId, fs.jobs[h.jobId])
    ensures fs.faults == old(fs.faults) ==> r.Done?
  {
    ghost var d := fs.Contents();
    RollbackRecordKeeps(d, h, goal);
    if RestartableJob(h.jobId, d.jobs[h.jobId]) && State(d.jobs[h.jobId]) == Some(Committing) {
      AppendKeepsRestartable(d.jobs[h.jobId], h.jobId, RollingBack);
    }
    r := fs.AppendState(h.jobId, RollingBack);
  }

  /** A job that prepare completed: its journal is whole and nothing of it has touched the targets. */
  ghost predicate IsPrepared(d: Disk, h: Header) {
    && h.jobId in d.jobs
    && RestartableJob(h.jobId, d.jobs[h.jobId])
    && HasHeader(d.jobs[h.jobId]) && Head(d.jobs[h.jobId]) == h && d.jobs[h.jobId].journal.value.tail.Clean?
    && State(d.jobs[h.jobId]) == Some(Prepared)
    && IndexesAgree(h)
  }

  /** A prepared job whose paths belong to no unfinished job. */
  ghost predicate ReadyToCommit(d: Disk, h: Header) {
    IsPrepared(d, h) && Owns(d, h.jobId, h)
  }

  /** Whatever an append of Committing leaves, recovery leaves the same files. */
  lemma CommittingRecordKeeps(d: Disk, h: Header, goal: Files)
    requires Sound(d) && Restores(d, goal) && ReadyToCommit(d, h) && SnapshotsMatch(h, d.targets)
    ensures var j := d.jobs[h.jobId].journal.value;
      && Running(WithJournal(d, h.jobId, Appended(j, Committing)), h, goal)
      && LastState(Appended(j, Committing).lines, Clean) == Some(Committing)
      && forall whole :: var torn := WithJournal(d, h.jobId, TornAppend(j, Committing, whole));
           Sound(torn) && Restores(torn, goal) && State(torn.jobs[h.jobId]) in {Some(Prepared), Some(Committing)}
  {
    var j := d.jobs[h.jobId].journal.value;
    LastStateOfAppended(j, Committing);
    CommittingKeepsRecovery(d, h.jobId, Appended(j, Committing), goal);
    CommittingKeepsRecovery(d, h.jobId, TornAppend(j, Committing, true), goal);
    assert LastState(j.lines, Torn) == LastState(j.lines, Clean);
    IdleWriteKeepsRecovery(d, WithJournal(d, h.jobId, TornAppend(j, Committing, false)), h.jobId, goal);
  }

  method MarkCommitting(fs: FileSystem, h: Header, ghost goal: Files) returns (r: Outcome)
    requires Sound(fs.Contents()) && Restores(fs.Contents(), goal) && ReadyToCommit(fs.Contents(), h)
    requires SnapshotsMatch(h, fs.targets)
    modifies fs
    ensures fs.Ended(r, {})
    ensures Sound(fs.Contents()) && Restores(fs.Contents(), goal) && OnlyJournal(old(fs.Contents()), fs.Contents(), h.jobId)
    ensures HasHeader(fs.jobs[h.jobId]) && Head(fs.jobs[h.jobId]) == h && State(fs.jobs[h.jobId]) != Some(Committed)
    ensures fs.wholeRecords || r.Done? ==> RestartableJob(h.jobId, fs.jobs[h.jobId])
    ensures r.Done? ==> Running(fs.Contents(), h, goal) && State(fs.jobs[h.jobId]) == Some(Committing)
    ensures r.Failed? ==> fs.Contents() == old(fs.Contents())
    ensures fs.faults == old(fs.faults) ==> r.Done?
  {
    ghost var d := fs.Contents();
    AppendKeepsRestartable(d.jobs[h.jobId], h.jobId, Committing);
    CommittingRecordKeeps(d, h, goal);
    r := fs.AppendState(h.jobId, Committing);
  }

  /** The commit point. */
  method MarkCommitted(fs: FileSystem, h: Header, ghost goal: Files, ghost base: Files, ghost payload: map<nat, File>)
    returns (r: Outcome)
    requires Running(fs.Contents(), h, goal) && RestartableJob(h.jobId, fs.jobs[h.jobId])
    requires State(fs.jobs[h.jobId]) == Some(Committing)
    requires Applying(fs.Contents(), h.jobId, h, |h.entries|, base, payload)
    modifies fs
    ensures fs.Ended(r, {})
    ensures Sound(fs.Contents()) && OnlyJournal(old(fs.Contents()), fs.Contents(), h.jobId)
    ensures HasHeader(fs.jobs[h.jobId]) && Head(fs.jobs[h.jobId]) == h
    ensures if State(fs.jobs[h.jobId]) == Some(Committed) then Restores(fs.Contents(), Applied(goal, h, payload))
            else Running(fs.Contents(), h, goal)
    ensures r.Done? ==> State(fs.jobs[h.jobId]) == Some(Committed)
    ensures r.Failed? ==> fs.Contents() == old(fs.Contents())
    ensures fs.wholeRecords || !r.PowerLoss? ==> RestartableJob(h.jobId, fs.jobs[h.jobId])
    ensures fs.faults == old(fs.faults) ==> r.Done?
  {
    ghost var d, j := fs.Contents(), fs.jobs[h.jobId].journal.value;
    LastStateOfAppended(j, Committed);
    AppendKeepsRestartable(d.jobs[h.jobId], h.jobId, Committed);
    CommittedIsTheSwitch(d, h.jobId, Appended(j, Committed), goal, base, payload);
    CommittedIsTheSwitch(d, h.jobId, TornAppend(j, Committed, true), goal, base, payload);
    assert LastState(j.lines, Torn) == LastState(j.lines, Clean);
    MarkerKeepsRecovery(d, h.jobId, TornAppend(j, Committed, false), goal);
    r := fs.AppendState(h.jobId, Committed);
  }

  // ---- commit -----------------------------------------------------------------------------

  /** The disk after a commit attempt: recovery leaves the old files or the new ones, and the new ones
      exactly when Committed is the journal's last record (for as long as the journal exists). */
  ghost predicate AllOrNothing(d: Disk, id: string, before: Files, after: Files) {
    && Sound(d)
    && (Restores(d, before) || Restores(d, after))
    && (id in d.jobs && HasHeader(d.jobs[id]) ==>
          Restores(d, if State(d.jobs[id]) == Some(Committed) then after else before))
  }

  function Report(o: Outcome): Commit
    requires !o.Done?
  {
    if o.Failed? then CommitErr(o.code) else Interrupted
  }

  lemma CleanupOnlyJob(d: Disk, e: Disk, id: string, h: Header)
    requires PartlyCleaned(d, e, id)
    ensures OnlyJob(d, e, id, h)
    ensures id in e.jobs && RestartableJob(id, d.jobs[id]) ==> RestartableJob(id, e.jobs[id])
    ensures id in e.jobs && HasHeader(e.jobs[id]) ==> HasHeader(d.jobs[id]) && State(e.jobs[id]) == State(d.jobs[id])
  {}

  /** A failed commit: record RollingBack (whatever that reports), roll back and clean up. */
  method AbandonCommit(fs: FileSystem, h: Header, ghost goal: Files, ghost start: Files) returns (r: Outcome)
    requires Running(fs.Contents(), h, goal) && Between(fs.targets, start, goal, !fs.atomic)
    requires State(fs.jobs[h.jobId]) == Some(Committing) && RestartableJob(h.jobId, fs.jobs[h.jobId])
    modifies fs
    ensures fs.Grows() && (fs.faults == old(fs.faults) ==> r.Done?)
    ensures r.Done? ==> h.jobId !in fs.jobs
    ensures Sound(fs.Contents()) && Restores(fs.Contents(), goal)
    ensures OnlyJob(old(fs.Contents()), fs.Contents(), h.jobId, h)
    ensures Between(fs.targets, start, goal, !fs.atomic)
    ensures fs.wholeRecords && h.jobId in fs.jobs ==> RestartableJob(h.jobId, fs.jobs[h.jobId])
    ensures h.jobId in fs.jobs && HasHeader(fs.jobs[h.jobId]) ==> State(fs.jobs[h.jobId]) != Some(Committed)
    ensures r.Done? ==> forall k :: 0 <= k < |h.entries| ==> Lookup(goal, TargetAt(h, k)) == Lookup(fs.targets, TargetAt(h, k))
    ensures r.Failed? ==> r.code == RecoveryIncomplete
  {
    ghost var d := fs.Contents();
    r := MarkRollingBack(fs, h, goal);
    if r.PowerLoss? { return; }
    ghost var m := fs.Contents();
    r := RollbackEntries(fs, h, goal, start);
    OnlyJobTransitive(d, m, fs.Contents(), h.jobId, h);
    if !r.Done? { return if r.PowerLoss? then r else Failed(RecoveryIncomplete); }
    ghost var n := fs.Contents();
    assert h.jobId in ActiveJobs(n);
    RolledBackTargets(n, h.jobId, goal);
    r := fs.CleanupJob(h.jobId);
    CleanupKeepsRecovery(n, fs.Contents(), h.jobId, goal);
    CleanupOnlyJob(n, fs.Contents(), h.jobId, h);
    OnlyJobTransitive(d, n, fs.Contents(), h.jobId, h);
    if !r.Done? { return if r.PowerLoss? then r else Failed(RecoveryIncomplete); }
  }

  /** `verify_original_snapshots`. */
  method VerifySnapshots(fs: FileSystem, h: Header) returns (r: Outcome)
    modifies fs`faults, fs`lastError
    ensures fs.Ended(r, {RootIdentity})
    ensures r.Done? ==> SnapshotsMatch(h, fs.targets)
    ensures fs.faults == old(fs.faults) && SnapshotsMatch(h, fs.targets) ==> r.Done?
  {
    for k := 0 to |h.entries|
      invariant fs.faults == old(fs.faults) && fs.lastError == old(fs.lastError)
      invariant forall j :: 0 <= j < k ==> SnapshotMatches(h, fs.targets, j)
    {
      var current;
      r, current := fs.InspectTarget(TargetAt(h, k));
      if !r.Done? { return; }
      if current != h.entries[k].original {
        assert !SnapshotMatches(h, fs.targets, k);
        return Failed(RootIdentity);
      }
    }
    r := Done;
  }

  /** Undoing a commit on the job's own paths has undone it everywhere. */
  lemma BackToStart(start: Disk, now: Files, h: Header, goal: Files)
    requires Restores(start, goal) && ReadyToCommit(start, h)
    requires ChangesOnly(h, start.targets, now)
    requires forall k :: 0 <= k < |h.entries| ==> Lookup(goal, TargetAt(h, k)) == Lookup(now, TargetAt(h, k))
    ensures now == start.targets
  {
    forall t ensures Lookup(now, t) == Lookup(start.targets, t) {
      if t in ManagedBy(h) {
        var k :| 0 <= k < |h.entries| && t == TargetAt(h, k);
        assert !Managed(start, t);
      }
    }
    SameFiles(now, start.targets);
  }

  /** `commit_file_set`. `before` is what recovery would leave now. Whatever happens, including a power
      loss at any point, recovery then leaves `before` or the whole new set, and no listed path is
      ever anything but old, new or (without atomic replacement) missing. What the call reports is
      true of the files: Ok means every path is new, any error other than RecoveryIncomplete means
      that no path changed. A changed target is refused with its own code and nothing is touched. One fault
      alone never needs recovery: the rollback completes and the code of the failed step is reported. */
  method CommitFileSet(fs: FileSystem, h: Header, ghost before: Files) returns (r: Commit)
    requires Sound(fs.Contents()) && Restores(fs.Contents(), before) && ReadyToCommit(fs.Contents(), h)
    modifies fs
    ensures fs.Grows()
    ensures AllOrNothing(fs.Contents(), h.jobId, before, Applied(before, h, old(fs.jobs)[h.jobId].prepared))
    ensures OnlyJob(old(fs.Contents()), fs.Contents(), h.jobId, h)
    ensures Between(fs.targets, old(fs.targets), Applied(old(fs.targets), h, old(fs.jobs)[h.jobId].prepared), !fs.atomic)
    ensures fs.wholeRecords && h.jobId in fs.jobs ==> RestartableJob(h.jobId, fs.jobs[h.jobId])
    ensures r.CommitOk? ==>
      && fs.targets == Applied(old(fs.targets), h, old(fs.jobs)[h.jobId].prepared)
      && Restores(fs.Contents(), Applied(before, h, old(fs.jobs)[h.jobId].prepared))
      && (!r.cleanupPending ==> h.jobId !in fs.jobs)
    ensures r.CommitErr? ==> Restores(fs.Contents(), before)
    ensures r.CommitErr? && r.code != RecoveryIncomplete ==> fs.targets == old(fs.targets)
    ensures fs.faults == old(fs.faults) && SnapshotsMatch(h, old(fs.targets)) && PayloadComplete(h, old(fs.jobs)[h.jobId].prepared) ==>
      r == CommitOk(false)
    ensures fs.faults == old(fs.faults) && !SnapshotsMatch(h, old(fs.targets)) ==>
      r == CommitErr(RootIdentity) && fs.Contents() == old(fs.Contents())
    ensures fs.faults == old(fs.faults) && SnapshotsMatch(h, old(fs.targets)) ==>
      !PayloadComplete(h, old(fs.jobs)[h.jobId].prepared) ==>
      r == CommitErr(TransactionIo) && fs.targets == old(fs.targets) && h.jobId !in fs.jobs
    ensures fs.faults == old(fs.faults) + 1 && r.CommitErr? && PayloadComplete(h, old(fs.jobs)[h.jobId].prepared) ==>
      && fs.targets == old(fs.targets)
      && r.code in {fs.lastError, if SnapshotsMatch(h, old(fs.targets)) then TransactionIo else RootIdentity}
  {
    ghost var d := fs.Contents();
    ghost var base, payload := fs.targets, fs.jobs[h.jobId].prepared;
    var o := fs.Check();
    if !o.Done? { return Report(o); }
    o := VerifySnapshots(fs, h);
    if !o.Done? { return Report(o); }
    o := MarkCommitting(fs, h, before);
    if !o.Done? { return Report(o); }
    ghost var m := fs.Contents();
    o := ApplyEntries(fs, h, before);
    OnlyJobTransitive(d, m, fs.Contents(), h.jobId, h);
    if o.PowerLoss? { return Interrupted; }
    ghost var n := fs.Contents();
    if o.Failed? {
      var undone := AbandonAndReport(fs, h, before, base, d, payload);
      return if undone.Done? then CommitErr(o.code) else Report(undone);
    }
    FullyApplied(n, h.jobId, h, base, payload);
    o := MarkCommitted(fs, h, before, base, payload);
    if o.PowerLoss? { return Interrupted; }
    if o.Failed? {
      var undone := AbandonAndReport(fs, h, before, base, d, payload);
      return if undone.Done? then CommitErr(TransactionIo) else Report(undone);
    }
    ghost var c := fs.Contents();
    o := fs.CleanupJob(h.jobId);
    CleanupKeepsRecovery(c, fs.Contents(), h.jobId, Applied(before, h, payload));
    CleanupOnlyJob(c, fs.Contents(), h.jobId, h);
    if o.PowerLoss? { return Interrupted; }
    return CommitOk(o.Failed?);
  }

  /** The rollback inside a commit whose applying failed or whose Committed record was not written. */
  method AbandonAndReport(fs: FileSystem, h: Header, ghost before: Files, ghost base: Files, ghost d: Disk,
                          ghost payload: map<nat, File>)
    returns (r: Outcome)
    requires Running(fs.Contents(), h, before) && State(fs.jobs[h.jobId]) == Some(Committing)
    requires RestartableJob(h.jobId, fs.jobs[h.jobId])
    requires Restores(d, before) && ReadyToCommit(d, h) && base == d.targets && OnlyJob(d, fs.Contents(), h.jobId, h)
    requires Between(fs.targets, base, Applied(base, h, payload), !fs.atomic)
    modifies fs
    ensures fs.Grows() && (fs.faults == old(fs.faults) ==> r.Done?)
    ensures r.Done? ==> h.jobId !in fs.jobs
    ensures Sound(fs.Contents()) && Restores(fs.Contents(), before) && OnlyJob(d, fs.Contents(), h.jobId, h)
    ensures Between(fs.targets, base, Applied(base, h, payload), !fs.atomic)
    ensures fs.wholeRecords && h.jobId in fs.jobs ==> RestartableJob(h.jobId, fs.jobs[h.jobId])
    ensures h.jobId in fs.jobs && HasHeader(fs.jobs[h.jobId]) ==> State(fs.jobs[h.jobId]) != Some(Committed)
    ensures r.Done? ==> fs.targets == base
    ensures r.Failed? ==> r.code == RecoveryIncomplete
  {
    ghost var m, start := fs.Contents(), fs.targets;
    r := AbandonCommit(fs, h, before, start);
    OnlyJobTransitive(d, m, fs.Contents(), h.jobId, h);
    BetweenThroughRollback(d, start, fs.targets, h, before, payload, !fs.atomic);
    if r.Done? { BackToStart(d, fs.targets, h, before); }
  }

  /** Rolling back from a state between old and new stays between old and new. */
  lemma BetweenThroughRollback(d: Disk, start: Files, now: Files, h: Header, before: Files,
                               payload: map<nat, File>, gaps: bool)
    requires Restores(d, before) && ReadyToCommit(d, h) && ChangesOnly(h, d.targets, now)
    requires Between(start, d.targets, Applied(d.targets, h, payload), gaps) && Between(now, start, before, gaps)
    ensures Between(now, d.targets, Applied(d.targets, h, payload), gaps)
  {
    forall t ensures || Lookup(now, t) == Lookup(d.targets, t)
                     || Lookup(now, t) == Lookup(Applied(d.targets, h, payload), t)
                     || (gaps && t !in now)
    {
      UntouchedGoal(d, h, before, t);
      assert || Lookup(now, t) == Lookup(start, t)
             || Lookup(now, t) == Lookup(before, t)
             || (gaps && t !in now);
    }
  }

  /** A prepared job's paths are already as recovery would leave them. */
  lemma UntouchedGoal(d: Disk, h: Header, before: Files, t: Target)
    requires Restores(d, before) && ReadyToCommit(d, h)
    ensures t in ManagedBy(h) ==> Lookup(before, t) == Lookup(d.targets, t)
  {
    if t in ManagedBy(h) { assert !Managed(d, t); }
  }

  // ---- recovery ---------------------------------------------------------------------------

  datatype Disposal = Discarded | WasRolledBack | WasCommitted

  /** What recovery reports for a job. */
  function DisposalOf(f: JobFiles): Disposal {
    if Active(f) then WasRolledBack
    else if HasHeader(f) && State(f) == Some(Committed) then WasCommitted
    else Discarded
  }

  /** The effect of recovering one job on everything else. */
  ghost predicate OtherJobsKept(d: Disk, e: Disk, id: string) { e.jobs - {id} == d.jobs - {id} }

  /** Removes a job that nobody has to roll back: only its private directory if it never had reserved
      files or its root is gone, both directories otherwise. */
  method DropJob(fs: FileSystem, id: string, privateOnly: bool, ghost goal: Files) returns (r: Outcome)
    requires Sound(fs.Contents()) && Restores(fs.Contents(), goal) && id in fs.jobs
    requires Active(fs.jobs[id]) ==> RolledBack(fs.Contents(), id)
    modifies fs
    ensures fs.Grows()
    ensures Sound(fs.Contents()) && Restores(fs.Contents(), goal)
    ensures OtherJobsKept(old(fs.Contents()), fs.Contents(), id) && fs.targets == old(fs.targets)
    ensures RestartableJob(id, old(fs.jobs)[id]) && id in fs.jobs ==> RestartableJob(id, fs.jobs[id])
    ensures SameVerdict(old(fs.Contents()), fs.Contents(), id)
    ensures r.Done? ==> id !in fs.jobs
    ensures fs.faults == old(fs.faults) ==> r.Done?
  {
    ghost var d := fs.Contents();
    assert d.jobs == d.jobs[id := d.jobs[id]];
    if privateOnly {
      r := fs.RemoveJobDirectory(id);
    } else {
      r := fs.CleanupJob(id);
    }
    CleanupKeepsRecovery(d, fs.Contents(), id, goal);
    CleanupOnlyJob(d, fs.Contents(), id, Header([], 0, "", "", "", 0));
  }

  method RollbackJob(fs: FileSystem, h: Header, ghost goal: Files, ghost start: Files) returns (r: Outcome)
    requires Running(fs.Contents(), h, goal) && Between(fs.targets, start, goal, !fs.atomic)
    modifies fs
    ensures fs.Grows()
    ensures Sound(fs.Contents()) && Restores(fs.Contents(), goal) && OtherJobsKept(old(fs.Contents()), fs.Contents(), h.jobId)
    ensures Between(fs.targets, start, goal, !fs.atomic)
    ensures fs.wholeRecords && RestartableJob(h.jobId, old(fs.jobs)[h.jobId]) && h.jobId in fs.jobs ==>
              RestartableJob(h.jobId, fs.jobs[h.jobId])
    ensures SameVerdict(old(fs.Contents()), fs.Contents(), h.jobId)
    ensures r.Done? ==> h.jobId !in fs.jobs
    ensures fs.faults == old(fs.faults) ==> r.Done?
  {
    if State(fs.jobs[h.jobId]) == Some(Committing) {
      r := MarkRollingBack(fs, h, goal);
      if !r.Done? { return; }
    }
    r := RollbackEntries(fs, h, goal, start);
    if !r.Done? { return; }
    r := DropJob(fs, h.jobId, false, goal);
  }

  /** One job directory of `recover_incomplete_with_policy`. */
  method RecoverJob(fs: FileSystem, id: string, ghost goal: Files, ghost start: Files)
    returns (r: Outcome, disposal: Disposal)
    requires Sound(fs.Contents()) && Restores(fs.Contents(), goal) && id in fs.jobs
    requires Between(fs.targets, start, goal, !fs.atomic)
    modifies fs
    ensures fs.Grows()
    ensures Sound(fs.Contents()) && Restores(fs.Contents(), goal) && OtherJobsKept(old(fs.Contents()), fs.Contents(), id)
    ensures Between(fs.targets, start, goal, !fs.atomic)
    ensures fs.wholeRecords && RestartableJob(id, old(fs.jobs)[id]) && id in fs.jobs ==> RestartableJob(id, fs.jobs[id])
    ensures SameVerdict(old(fs.Contents()), fs.Contents(), id)
    ensures r.Done? ==> id !in fs.jobs && disposal == DisposalOf(old(fs.jobs)[id])
    ensures r.Done? ==> Recoverable(id, old(fs.jobs)[id])
    ensures fs.faults == old(fs.faults) && Recoverable(id, old(fs.jobs)[id]) ==> r.Done?
  {
    disposal := Discarded;
    var f := fs.jobs[id];
    if f.journal.None? {
      r := DropJob(fs, id, true, goal);
      return;
    }
    var journal := ReadJournal(f.journal.value);
    if journal.Err? { return Failed(journal.error), disposal; }
    var (h, state) := journal.value;
    if h.jobId != id { return Failed(RecoveryIncomplete), disposal; }
    r := fs.Check();
    if !r.Done? {
      var rootIsMissing: bool := *;
      if r.Failed? && state == Prepared && rootIsMissing { r := DropJob(fs, id, true, goal); }
      return;
    }
    match state {
      case Prepared =>
        r := DropJob(fs, id, false, goal);
      case Committed =>
        disposal := WasCommitted;
        r := DropJob(fs, id, false, goal);
      case Committing =>
        disposal := WasRolledBack;
        r := RollbackJob(fs, h, goal, start);
      case RollingBack =>
        disposal := WasRolledBack;
        r := RollbackJob(fs, h, goal, start);
    }
  }

  /** The list names exactly the finished jobs that ended this way. */
  ghost predicate Lists(names: seq<string>, jobs: map<string, JobFiles>, finished: set<string>, disposal: Disposal) {
    forall id :: id in names <==> id in finished && id in jobs && DisposalOf(jobs[id]) == disposal
  }

  ghost predicate Reports(result: Recovery, jobs: map<string, JobFiles>, finished: set<string>) {
    && Lists(result.discarded, jobs, finished, Discarded)
    && Lists(result.rolledBack, jobs, finished, WasRolledBack)
    && Lists(result.committed, jobs, finished, WasCommitted)
  }

  function Add(result: Recovery, id: string, disposal: Disposal): Recovery {
    match disposal
    case Discarded => result.(discarded := result.discarded + [id])
    case WasRolledBack => result.(rolledBack := result.rolledBack + [id])
    case WasCommitted => result.(committed := result.committed + [id])
  }

  lemma AddReports(result: Recovery, jobs: map<string, JobFiles>, finished: set<string>, id: string)
    requires Reports(result, jobs, finished) && id in jobs && id !in finished
    ensures Reports(Add(result, id, DisposalOf(jobs[id])), jobs, finished + {id})
  {}

  /** Jobs not yet recovered are as they were, and recovered ones are gone. */
  ghost predicate Remaining(d: Disk, jobs: map<string, JobFiles>, remaining: set<string>) {
    && remaining <= jobs.Keys
    && d.jobs.Keys == remaining
    && forall id :: id in remaining ==> d.jobs[id] == jobs[id]
  }

  ghost predicate SameVerdicts(d: Disk, e: Disk) { forall id :: id in e.jobs ==> SameVerdict(d, e, id) }

  lemma AfterJob(d: Disk, e: Disk, id: string, jobs: map<string, JobFiles>, remaining: set<string>)
    requires Remaining(d, jobs, remaining) && id in remaining && OtherJobsKept(d, e, id)
    ensures id !in e.jobs ==> Remaining(e, jobs, remaining - {id})
    ensures SameVerdict(d, e, id) ==> SameVerdicts(Disk(map[], jobs), e)
    ensures e.jobs.Keys <= jobs.Keys
    ensures Restartable(Disk(map[], jobs)) && (id in e.jobs ==> RestartableJob(id, e.jobs[id])) ==> Restartable(e)
  {
    forall other | other != id
      ensures other in e.jobs <==> other in d.jobs
      ensures other in e.jobs ==> e.jobs[other] == d.jobs[other]
    {
      assert other in e.jobs <==> other in e.jobs - {id};
      assert other in d.jobs <==> other in d.jobs - {id};
      if other in e.jobs { assert (e.jobs - {id})[other] == (d.jobs - {id})[other]; }
    }
  }

  ghost predicate AllRecoverable(jobs: map<string, JobFiles>) {
    forall id :: id in jobs ==> Recoverable(id, jobs[id])
  }

  /** The recovery loop that started from `start` has still to do the jobs in `remaining`. */
  ghost predicate Progress(start: Disk, d: Disk, goal: Files, gaps: bool, remaining: set<string>, result: Recovery) {
    && Sound(d) && Restores(d, goal)
    && Between(d.targets, start.targets, goal, gaps)
    && Remaining(d, start.jobs, remaining)
    && Reports(result, start.jobs, start.jobs.Keys - remaining)
  }

  /** One round of the recovery loop. */
  method RecoverNext(fs: FileSystem, id: string, remaining: set<string>, soFar: Recovery, ghost start: Disk, ghost goal: Files)
    returns (r: Outcome, result: Recovery)
    requires Progress(start, fs.Contents(), goal, !fs.atomic, remaining, soFar) && id in remaining
    modifies fs
    ensures fs.Grows()
    ensures Sound(fs.Contents()) && Restores(fs.Contents(), goal)
    ensures Between(fs.targets, start.targets, goal, !fs.atomic)
    ensures fs.wholeRecords && Restartable(start) ==> Restartable(fs.Contents())
    ensures SameVerdicts(start, fs.Contents()) && fs.jobs.Keys <= start.jobs.Keys
    ensures r.Done? ==> Progress(start, fs.Contents(), goal, !fs.atomic, remaining - {id}, result) && Recoverable(id, start.jobs[id])
    ensures fs.faults == old(fs.faults) && AllRecoverable(start.jobs) ==> r.Done?
  {
    ghost var d := fs.Contents();
    var disposal;
    r, disposal := RecoverJob(fs, id, goal, start.targets);
    AfterJob(d, fs.Contents(), id, start.jobs, remaining);
    AddReports(soFar, start.jobs, start.jobs.Keys - remaining, id);
    assert start.jobs.Keys - remaining + {id} == start.jobs.Keys - (remaining - {id});
    result := Add(soFar, id, disposal);
  }

  lemma Finished(start: Disk, d: Disk, goal: Files, gaps: bool, result: Recovery)
    requires Progress(start, d, goal, gaps, {}, result)
    ensures d.targets == goal && d.jobs == map[] && Reports(result, start.jobs, start.jobs.Keys)
  {
    assert start.jobs.Keys - {} == start.jobs.Keys;
    assert ActiveJobs(d) == map[];
    SettledDisk(d, goal);
  }

  /** What a report says about the journals that recovery found: a job is committed exactly if its last record
      is Committed, rolled back exactly if it is Committing or RollingBack, and discarded exactly otherwise. */
  ghost predicate ReportsStates(result: Recovery, jobs: map<string, JobFiles>) {
    && (forall id :: id in result.committed <==>
          id in jobs && HasHeader(jobs[id]) && State(jobs[id]) == Some(Committed))
    && (forall id :: id in result.rolledBack <==>
          id in jobs && HasHeader(jobs[id]) && (State(jobs[id]) == Some(Committing) || State(jobs[id]) == Some(RollingBack)))
    && (forall id :: id in result.discarded <==>
          id in jobs && (HasHeader(jobs[id]) ==>
                           State(jobs[id]) != Some(Committed) && State(jobs[id]) != Some(Committing)
                           && State(jobs[id]) != Some(RollingBack)))
  }

  lemma ReportsMeanStates(result: Recovery, jobs: map<string, JobFiles>)
    requires Reports(result, jobs, jobs.Keys)
    ensures ReportsStates(result, jobs)
  {}

  /** `recover_incomplete_with_policy`, over the job directories in any order. `goal` is what recovery
      leaves; it stays so however often recovery fails or loses power, and a run that completes has
      put every file there and removed every job. A run completes only if every journal can be read, and
      then always unless a fault occurs; with whole-record appends the journals stay readable. */
  method RecoverIncomplete(fs: FileSystem, ghost goal: Files) returns (r: Outcome, result: Recovery)
    requires Sound(fs.Contents()) && Restores(fs.Contents(), goal)
    modifies fs
    ensures fs.Grows()
    ensures Sound(fs.Contents()) && Restores(fs.Contents(), goal)
    ensures Between(fs.targets, old(fs.targets), goal, !fs.atomic)
    ensures fs.wholeRecords && Restartable(old(fs.Contents())) ==> Restartable(fs.Contents())
    ensures SameVerdicts(old(fs.Contents()), fs.Contents()) && fs.jobs.Keys <= old(fs.jobs).Keys
    ensures r.Done? ==> fs.targets == goal && fs.jobs == map[] && ReportsStates(result, old(fs.jobs))
    ensures r.Done? ==> AllRecoverable(old(fs.jobs))
    ensures fs.faults == old(fs.faults) && AllRecoverable(old(fs.jobs)) ==> r.Done?
  {
    ghost var start := fs.Contents();
    var remaining := fs.jobs.Keys;
    r, result := Done, Recovery([], [], []);
    while remaining != {}
      invariant fs.Grows()
      invariant Progress(start, fs.Contents(), goal, !fs.atomic, remaining, result)
      invariant fs.wholeRecords && Restartable(start) ==> Restartable(fs.Contents())
      invariant SameVerdicts(start, fs.Contents()) && fs.jobs.Keys <= start.jobs.Keys
      invariant forall id :: id in start.jobs && id !in remaining ==> Recoverable(id, start.jobs[id])
      decreases |remaining|
    {
      var id :| id in remaining;
      r, result := RecoverNext(fs, id, remaining, result, start, goal);
      if !r.Done? { return; }
      remaining := remaining - {id};
    }
    r := Done;
    Finished(start, fs.Contents(), goal, !fs.atomic, result);
    ReportsMeanStates(result, start.jobs);
  }

  lemma SameVerdictsTransitive(a: Disk, b: Disk, c: Disk)
    requires SameVerdicts(a, b) && SameVerdicts(b, c)
    ensures SameVerdicts(a, c)
  {
    forall id | id in c.jobs ensures SameVerdict(a, c, id) {
      assert SameVerdict(b, c, id);
      if HasHeader(c.jobs[id]) { assert SameVerdict(a, b, id); }
    }
  }

  /** Power is lost and restored any number of times: after each start the service recovers, until a
      run completes. `last` is the disk from which the completing run started: its report is about that. */
  method RecoverUntilDone(fs: FileSystem, boots: nat, ghost goal: Files)
    returns (done: bool, report: Recovery, ghost last: Disk)
    requires Sound(fs.Contents()) && Restores(fs.Contents(), goal)
    modifies fs
    ensures Sound(fs.Contents()) && Restores(fs.Contents(), goal)
    ensures fs.wholeRecords && Restartable(old(fs.Contents())) ==> Restartable(fs.Contents())
    ensures done ==>
      && fs.targets == goal && fs.jobs == map[]
      && Restores(last, goal) && SameVerdicts(old(fs.Contents()), last) && ReportsStates(report, last.jobs)
      && last.jobs.Keys <= old(fs.jobs).Keys && AllRecoverable(last.jobs)
  {
    ghost var start := fs.Contents();
    done, report, last := false, Recovery([], [], []), start;
    for boot := 0 to boots
      invariant Sound(fs.Contents()) && Restores(fs.Contents(), goal) && SameVerdicts(start, fs.Contents())
      invariant fs.wholeRecords && Restartable(start) ==> Restartable(fs.Contents())
      invariant fs.jobs.Keys <= start.jobs.Keys
    {
      last := fs.Contents();
      var r;
      r, report := RecoverIncomplete(fs, goal);
      if r.Done? { return true, report, last; }
      SameVerdictsTransitive(start, last, fs.Contents());
    }
  }
}
