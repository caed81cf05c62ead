/** The file system that the transaction works on: one method per primitive. Each primitive draws a
    fault, so it may fail or lose power before or after its effect; nothing else changes the disk. */
module FileSystems {
  import opened Outcomes
  import opened Text
  import opened Journals
  import opened Disks
  import opened Transactions

  class FileSystem {
    /** `uses_atomic_replacement` of the platform. */
    const atomic: bool
    /** A power loss never leaves part of an appended record. */
    const wholeRecords: bool
    var targets: Files
    var jobs: map<string, JobFiles>
    /** How many faults were drawn, and the code of the last error among them. */
    ghost var faults: nat
    ghost var lastError: ErrorCode

    constructor (atomic: bool, wholeRecords: bool, targets: Files)
      ensures this.atomic == atomic && this.wholeRecords == wholeRecords && faults == 0
      ensures Contents() == Disk(targets, map[])
    {
      this.atomic, this.wholeRecords, this.targets := atomic, wholeRecords, targets;
      jobs, faults, lastError := map[], 0, TransactionIo;
    }

    /** Faults are only added, and without a new one the last error is the same. */
    twostate predicate Grows()
      reads this
    {
      old(faults) <= faults && (faults == old(faults) ==> lastError == old(lastError))
    }

    /** How one step ends: it succeeds without a fault, or reports its one fault, or refuses with one of
        these codes. */
    twostate predicate Ended(r: Outcome, refusals: set<ErrorCode>)
      reads this
    {
      && Grows()
      && (if r.Done? then faults == old(faults)
          else || (faults == old(faults) + 1 && (r.Failed? ==> r.code == lastError))
               || (faults == old(faults) && r.Failed? && r.code in refusals))
    }

    ghost method Draw(fault: Fault)
      modifies this`faults, this`lastError
      ensures faults == old(faults) + if fault == NoFault then 0 else 1
      ensures lastError == if fault.IsError() then fault.code else old(lastError)
    {
      if fault != NoFault { faults := faults + 1; }
      if fault.IsError() { lastError := fault.code; }
    }

    function Contents(): Disk
      reads this
    {
      Disk(targets, jobs)
    }

    /** A platform check, such as the identity of the root directory, that can only fail. */
    method Check() returns (r: Outcome)
      modifies this`faults, this`lastError
      ensures Ended(r, {})
    {
      var fault: Fault := *;
      Draw(fault);
      r := fault.Report();
    }

    /** `inspect_target`. */
    method InspectTarget(t: Target) returns (r: Outcome, snapshot: Option<Snapshot>)
      modifies this`faults, this`lastError
      ensures Ended(r, {})
      ensures r.Done? ==> snapshot == SnapshotOf(targets, t)
    {
      r := Check();
      snapshot := SnapshotOf(targets, t);
    }

    /** `backup_exists`. */
    method BackupExists(id: string, index: nat) returns (r: Outcome, found: bool)
      requires id in jobs
      modifies this`faults, this`lastError
      ensures Ended(r, {})
      ensures r.Done? ==> found == (index in jobs[id].backups)
    {
      r := Check();
      found := index in jobs[id].backups;
    }

    /** `rename_target_to_backup`: refuses a target that changed and a backup that exists. */
    method RenameTargetToBackup(id: string, index: nat, t: Target, expected: Snapshot) returns (r: Outcome)
      requires id in jobs
      modifies this
      ensures Ended(r, {RootIdentity, TransactionConflict})
      ensures var possible := SnapshotOf(old(targets), t) == Some(expected) && index !in old(jobs)[id].backups;
        && (r.Done? ==> possible)
        && (possible && faults == old(faults) ==> r.Done?)
        && (possible && r.Done? ==> Contents() == BackedUp(old(Contents()), id, index, t))
        && (Contents() == old(Contents()) || (possible && Contents() == BackedUp(old(Contents()), id, index, t)))
    {
      var fault: Fault := *;
      if fault.Before() {
        Draw(fault);
        return fault.Report();
      }
      if SnapshotOf(targets, t) != Some(expected) { return Failed(RootIdentity); }
      if index in jobs[id].backups { return Failed(TransactionConflict); }
      Draw(fault);
      jobs := jobs[id := jobs[id].(backups := jobs[id].backups[index := targets[t]])];
      targets := targets - {t};
      return fault.Report();
    }

    /** `rename_prepared_to_target`: refuses an existing target and a missing payload. */
    method RenamePreparedToTarget(id: string, index: nat, t: Target) returns (r: Outcome)
      requires id in jobs
      modifies this
      ensures Ended(r, if t in old(targets) then {TransactionConflict} else {TransactionIo})
      ensures var possible := t !in old(targets) && index in old(jobs)[id].prepared;
        && (r.Done? ==> possible && Contents() == Installed(old(Contents()), id, index, t))
        && (possible && faults == old(faults) ==> r.Done?)
        && (Contents() == old(Contents()) || (possible && Contents() == Installed(old(Contents()), id, index, t)))
    {
      var fault: Fault := *;
      if fault.Before() {
        Draw(fault);
        return fault.Report();
      }
      if t in targets { return Failed(TransactionConflict); }
      if index !in jobs[id].prepared { return Failed(TransactionIo); }
      Draw(fault);
      targets := targets[t := jobs[id].prepared[index]];
      jobs := jobs[id := jobs[id].(prepared := jobs[id].prepared - {index})];
      return fault.Report();
    }

    /** `atomic_replace_target`: ReplaceFileW with a backup, or a move where no target exists. */
    method AtomicReplaceTarget(id: string, index: nat, t: Target, original: Option<Snapshot>) returns (r: Outcome)
      requires id in jobs
      modifies this
      ensures Ended(r, 
        if SnapshotOf(old(targets), t) != original then {RootIdentity}
        else if original.Some? && index in old(jobs)[id].backups then {TransactionConflict} else {TransactionIo})
      ensures var possible :=
          && SnapshotOf(old(targets), t) == original
          && index in old(jobs)[id].prepared
          && (original.Some? ==> index !in old(jobs)[id].backups);
        && (r.Done? ==> possible && Contents() == Replaced(old(Contents()), id, index, t))
        && (possible && faults == old(faults) ==> r.Done?)
        && (Contents() == old(Contents()) || (possible && Contents() == Replaced(old(Contents()), id, index, t)))
    {
      var fault: Fault := *;
      if fault.Before() {
        Draw(fault);
        return fault.Report();
      }
      if SnapshotOf(targets, t) != original { return Failed(RootIdentity); }
      if original.Some? && index in jobs[id].backups { return Failed(TransactionConflict); }
      if index !in jobs[id].prepared { return Failed(TransactionIo); }
      Draw(fault);
      var f := jobs[id];
      if t in targets { f := f.(backups := f.backups[index := targets[t]]); }
      targets := targets[t := f.prepared[index]];
      jobs := jobs[id := f.(prepared := f.prepared - {index})];
      assert targets == (old(targets) - {t})[t := f.prepared[index]];
      return fault.Report();
    }

    /** `delete_target`: a missing target is no error. */
    method DeleteTarget(t: Target) returns (r: Outcome)
      modifies this
      ensures Ended(r, {})
      ensures r.Done? ==> Contents() == Deleted(old(Contents()), t)
      ensures Contents() == old(Contents()) || Contents() == Deleted(old(Contents()), t)
    {
      var fault: Fault := *;
      Draw(fault);
      if fault.Before() { return fault.Report(); }
      targets := targets - {t};
      return fault.Report();
    }

    /** `restore_backup`: refuses an existing target and a missing backup. */
    method RestoreBackup(id: string, index: nat, t: Target) returns (r: Outcome)
      requires id in jobs
      modifies this
      ensures Ended(r, {TransactionConflict, TransactionIo})
      ensures var possible := t !in old(targets) && index in old(jobs)[id].backups;
        && (r.Done? ==> possible && Contents() == BroughtBack(old(Contents()), id, index, t))
        && (possible && faults == old(faults) ==> r.Done?)
        && (Contents() == old(Contents()) || (possible && Contents() == BroughtBack(old(Contents()), id, index, t)))
    {
      var fault: Fault := *;
      if fault.Before() {
        Draw(fault);
        return fault.Report();
      }
      if t in targets { return Failed(TransactionConflict); }
      if index !in jobs[id].backups { return Failed(TransactionIo); }
      Draw(fault);
      targets := targets[t := jobs[id].backups[index]];
      jobs := jobs[id := jobs[id].(backups := jobs[id].backups - {index})];
      return fault.Report();
    }

    /** `atomic_restore_backup`: ReplaceFileW without a backup, or a move where the target is gone. */
    method AtomicRestoreBackup(id: string, index: nat, t: Target) returns (r: Outcome)
      requires id in jobs
      modifies this
      ensures Ended(r, {TransactionIo})
      ensures var possible := index in old(jobs)[id].backups;
        && (r.Done? ==> possible && Contents() == BroughtBack(old(Contents()), id, index, t))
        && (possible && faults == old(faults) ==> r.Done?)
        && (Contents() == old(Contents()) || (possible && Contents() == BroughtBack(old(Contents()), id, index, t)))
    {
      var fault: Fault := *;
      if fault.Before() {
        Draw(fault);
        return fault.Report();
      }
      if index !in jobs[id].backups { return Failed(TransactionIo); }
      Draw(fault);
      targets := targets[t := jobs[id].backups[index]];
      jobs := jobs[id := jobs[id].(backups := jobs[id].backups - {index})];
      return fault.Report();
    }

    /** `append_state`. An append that reports failure leaves no record; a power loss can leave part
        of a record unless `wholeRecords`, and only in a journal that had no torn bytes. */
    method AppendState(id: string, state: JournalState) returns (r: Outcome)
      requires id in jobs && HasHeader(jobs[id])
      modifies this
      ensures Ended(r, {})
      ensures r.Done? ==> Contents() == WithJournal(old(Contents()), id, Appended(old(jobs)[id].journal.value, state))
      ensures r.Failed? ==> Contents() == old(Contents())
      ensures var j := old(jobs)[id].journal.value;
        || Contents() == old(Contents())
        || Contents() == WithJournal(old(Contents()), id, Appended(j, state))
        || (!wholeRecords && r.PowerLoss? && j.tail.Clean?
            && exists whole: bool :: Contents() == WithJournal(old(Contents()), id, TornAppend(j, state, whole)))
    {
      var fault: Fault := *;
      Draw(fault);
      var j := jobs[id].journal.value;
      if fault.FailBefore? || fault.FailAfter? { return fault.Report(); }
      if fault.LossBefore? {
        var torn, whole: bool := *, *;
        if torn && !wholeRecords && j.tail.Clean? {
          jobs := jobs[id := jobs[id].(journal := Some(TornAppend(j, state, whole)))];
          assert Contents() == WithJournal(old(Contents()), id, TornAppend(j, state, whole));
        }
        return PowerLoss;
      }
      jobs := jobs[id := jobs[id].(journal := Some(Appended(j, state)))];
      return fault.Report();
    }

    /** `cleanup_job`: removes the reserved directory, file by file in any order, and then the
        private one, in which the journal may go before the directory does. */
    method CleanupJob(id: string) returns (r: Outcome)
      requires id in jobs
      modifies this
      ensures Ended(r, {})
      ensures r.Done? ==> Contents() == Removed(old(Contents()), id)
      ensures PartlyCleaned(old(Contents()), Contents(), id)
    {
      var f := jobs[id];
      var reserved: Fault := *;
      Draw(reserved);
      if reserved.Before() {
        var keepPrepared: set<nat>, keepBackups: set<nat> := *, *;
        jobs := jobs[id := f.(prepared := map i | i in f.prepared && i in keepPrepared :: f.prepared[i],
                              backups := map i | i in f.backups && i in keepBackups :: f.backups[i])];
        return reserved.Report();
      }
      jobs := jobs[id := f.(prepared := map[], backups := map[])];
      if reserved != NoFault { return reserved.Report(); }
      var private: Fault := *;
      Draw(private);
      if private.Before() {
        var journalGone: bool := *;
        if journalGone { jobs := jobs[id := JobFiles(None, map[], map[])]; }
        return private.Report();
      }
      jobs := jobs - {id};
      assert Contents() == Removed(old(Contents()), id);
      return private.Report();
    }

    /** `remove_dir_all` on a job directory that has no journal, or whose root is gone. */
    method RemoveJobDirectory(id: string) returns (r: Outcome)
      requires id in jobs
      modifies this
      ensures Ended(r, {})
      ensures r.Done? ==> Contents() == Removed(old(Contents()), id)
      ensures Contents() == old(Contents()) || Contents() == Removed(old(Contents()), id)
        || (id in jobs && jobs[id] == JobFiles(None, map[], map[]) && Contents() == Disk(old(targets), old(jobs)[id := jobs[id]]))
    {
      var fault: Fault := *;
      Draw(fault);
      if fault.Before() {
        var journalGone: bool := *;
        if journalGone { jobs := jobs[id := JobFiles(None, map[], map[])]; }
        return fault.Report();
      }
      jobs := jobs - {id};
      return fault.Report();
    }

    /** `create_dir`: refuses a job directory that exists. */
    method CreateJobDirectory(id: string) returns (r: Outcome)
      modifies this
      ensures Ended(r, {TransactionConflict})
      ensures id in old(jobs) ==> !r.Done? && Contents() == old(Contents())
      ensures faults == old(faults) && id !in old(jobs) ==> r.Done?
      ensures targets == old(targets) && (r.Done? ==> id in jobs)
      ensures jobs == old(jobs) || jobs == old(jobs)[id := JobFiles(None, map[], map[])]
      ensures r.Done? ==> jobs[id] == JobFiles(None, map[], map[])
    {
      var fault: Fault := *;
      if fault.Before() {
        Draw(fault);
        return fault.Report();
      }
      if id in jobs { return Failed(TransactionConflict); }
      Draw(fault);
      jobs := jobs[id := JobFiles(None, map[], map[])];
      return fault.Report();
    }

    /** `write_new_journal`: the header and the Prepared record. A fault can leave any part of them
        unless `wholeRecords`, which makes the journal appear whole or not at all. */
    method WriteNewJournal(id: string, h: Header) returns (r: Outcome)
      requires id in jobs && jobs[id].journal.None?
      modifies this
      ensures Ended(r, {})
      ensures r.Done? ==> Contents() == WithJournal(old(Contents()), id, Journal(h, [Record(Prepared)], Clean))
      ensures || Contents() == old(Contents())
              || Contents() == WithJournal(old(Contents()), id, Journal(h, [Record(Prepared)], Clean))
              || (!wholeRecords && (|| Contents() == WithJournal(old(Contents()), id, Unreadable)
                                    || exists tail: Tail :: tail in [Clean, Torn, Unterminated(Prepared)]
                                         && Contents() == WithJournal(old(Contents()), id, Journal(h, [], tail))))
    {
      var fault: Fault := *;
      Draw(fault);
      if fault.Before() {
        var written: bool, headerWhole: bool, tail: Tail := *, *, *;
        if written && !wholeRecords {
          if headerWhole && tail in [Clean, Torn, Unterminated(Prepared)] {
            jobs := jobs[id := jobs[id].(journal := Some(Journal(h, [], tail)))];
            assert Contents() == WithJournal(old(Contents()), id, Journal(h, [], tail));
          } else {
            jobs := jobs[id := jobs[id].(journal := Some(Unreadable))];
          }
        }
        return fault.Report();
      }
      jobs := jobs[id := jobs[id].(journal := Some(Journal(h, [Record(Prepared)], Clean)))];
      return fault.Report();
    }

    /** `prepare_target_payload`: copies a private payload beside the targets; a fault can leave a
        partial copy. */
    method PrepareTargetPayload(id: string, index: nat, content: seq<byte>) returns (r: Outcome)
      requires id in jobs && HasHeader(jobs[id])
      modifies this
      ensures Ended(r, {TransactionIo})
      ensures faults == old(faults) && index !in old(jobs)[id].prepared ==> r.Done?
      ensures targets == old(targets) && id in jobs
      ensures jobs == old(jobs)[id := old(jobs)[id].(prepared := jobs[id].prepared)]
      ensures jobs[id].prepared - {index} == old(jobs)[id].prepared - {index}
      ensures r.Done? ==> index in jobs[id].prepared && jobs[id].prepared[index].content == content
    {
      var fault: Fault := *;
      if index in jobs[id].prepared {
        assert jobs == jobs[id := jobs[id].(prepared := jobs[id].prepared)];
        return Failed(TransactionIo);
      }
      Draw(fault);
      var snapshot: Snapshot, length: nat := *, *;
      var copied := if fault.Before() && length < |content| then content[..length] else content;
      jobs := jobs[id := jobs[id].(prepared := jobs[id].prepared[index := File(snapshot, copied)])];
      return fault.Report();
    }
  }
}
