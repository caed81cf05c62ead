/** `apply_registry_set_transaction`: all listed values old or all new, whatever fails. */
module RegistryTransactions {
  import opened Outcomes
  import opened Text
  import opened ProtectedFiles
  import opened Generations
  import opened RegistrySets
  import opened RegistryRollbacks

  /** The set's generation is the scope's floor at the next start. */
  ghost predicate GenerationOnDisk(s: RegistryStore, m: VerifiedRegistrySet)
    reads s, s.generations, s.generations.file
  {
    FloorHolds(s.generations.Persisted(), m)
  }

  /** Recovery leaves the old values, or the new ones with their generation on disk. */
  ghost predicate AllOrNothing(s: RegistryStore, before: Values, after: Values, m: VerifiedRegistrySet)
    reads s, s.journalFile, s.generations, s.generations.file
  {
    Whole(s.values, s.journalFile.files, s.codec, s.generations.Persisted(), m, before, after)
  }

  /** The only faults of the registry calls and of the journal file are power losses. */
  predicate LossOnly(s: RegistryStore)
    reads s
  {
    s.lossOnly && s.journalFile.lossOnly
  }

  /** No step has drawn a fault. */
  ghost predicate Undisturbed(s: RegistryStore)
    reads s, s.journalFile, s.generations, s.generations.file
  {
    !s.disturbed && !s.journalFile.disturbed && !s.generations.file.disturbed
  }

  function Snapshots(settings: seq<Setting>, values: Values): (changes: seq<Change>)
    ensures |changes| == |settings|
    ensures forall i :: 0 <= i < |settings| ==> changes[i] == Change(settings[i].name, Lookup(values, Lower(settings[i].name)))
  {
    seq(|settings|, i requires 0 <= i < |settings| => Change(settings[i].name, Lookup(values, Lower(settings[i].name))))
  }

  /** The journal that an apply writes first. */
  function PreparedJournal(m: VerifiedRegistrySet, before: Values): RegistryJournal {
    RegistryJournal(PreparedPhase, m.scopeId, Snapshots(m.settings, before))
  }

  /** Both records and the new floors fit their files, no replacement is left over, and the generation is
      acceptable: what an apply needs besides luck. */
  ghost predicate Applicable(s: RegistryStore, m: VerifiedRegistrySet)
    reads s, s.journalFile, s.generations, s.generations.file
  {
    var prepared := PreparedJournal(m, s.values);
    var accepted := Accept(s.generations.floors, m.scopeId, m.record);
    && Tidy(s.journalFile.files) && Tidy(s.generations.file.files)
    && |s.codec.encode(prepared)| <= MAX_REGISTRY_TRANSACTION_BYTES
    && |s.codec.encode(CommittedRecord(prepared))| <= MAX_REGISTRY_TRANSACTION_BYTES
    && accepted.Ok? && |s.generations.codec.encode(accepted.value)| <= MAX_GENERATION_REGISTRY_BYTES
  }

  /** `create_registry_transaction`: one snapshot per listed value. */
  method TakeSnapshots(s: RegistryStore, m: VerifiedRegistrySet) returns (r: Outcome, changes: seq<Change>)
    modifies s`disturbed
    ensures old(s.disturbed) ==> s.disturbed
    ensures !s.disturbed ==> r.Done?
    ensures r.Done? ==> changes == Snapshots(m.settings, s.values)
  {
    changes := [];
    r := Done;
    for i := 0 to |m.settings|
      invariant old(s.disturbed) ==> s.disturbed
      invariant |changes| == i && r.Done?
      invariant changes == Snapshots(m.settings, s.values)[..i]
    {
      r := s.Check();
      if !r.Done? { return; }
      changes := changes + [Change(m.settings[i].name, Lookup(s.values, Lower(m.settings[i].name)))];
    }
  }

  /** The loop that writes the values: wherever it stops, the snapshots lead back. */
  method WriteSettings(s: RegistryStore, m: VerifiedRegistrySet, changes: seq<Change>, ghost before: Values)
    returns (r: Outcome)
    requires m.Valid() && s.values == before && changes == Snapshots(m.settings, before)
    modifies s`values, s`disturbed
    ensures old(s.disturbed) ==> s.disturbed
    ensures Reverts(s.values, changes, before)
    ensures s.lossOnly ==> !r.Failed?
    ensures EachOf(s.values, before, UpdatedValues(before, m.settings))
    ensures r.Done? ==> Updates(before, s.values, m.settings)
    ensures !s.disturbed ==> r.Done?
  {
    WrittenReverts(s.values, before, m.settings, 0, changes);
    for i := 0 to |m.settings|
      invariant old(s.disturbed) ==> s.disturbed
      invariant Written(s.values, before, m.settings, i) && Reverts(s.values, changes, before)
    {
      ghost var was := s.values;
      WriteNext(was, before, m.settings, i);
      WrittenIsEachOf(was, before, m.settings, i);
      r := s.SetValue(m.settings[i].name, m.settings[i].stored);
      WrittenReverts(s.values, before, m.settings, if s.values == was then i else i + 1, changes);
      if !r.Done? { return; }
    }
    r := Done;
  }

  lemma SnapshotFacts(m: VerifiedRegistrySet, before: Values, after: Values)
    requires m.Valid() && Updates(before, after, m.settings)
    ensures var changes := Snapshots(m.settings, before); DistinctNames(changes) && Reverts(after, changes, before)
  {
    var changes := Snapshots(m.settings, before);
    forall name | !Listed(changes, name) ensures Lookup(before, name) == Lookup(after, name) {
      forall i | 0 <= i < |m.settings| ensures Lower(m.settings[i].name) != name { assert Lower(changes[i].name) != name; }
    }
  }

  /** A failed write: restore the values and only then remove the journal. */
  method UndoWrites(s: RegistryStore, prepared: RegistryJournal, ghost before: Values, ghost after: Values) returns (r: Outcome)
    requires s.Valid() && MarkerStop(s.journalFile.files, s.codec, prepared)
    requires s.journalFile.files == Trio(Some(s.codec.encode(prepared)), None, None)
    requires Reverts(s.values, prepared.changes, before) && EachOf(s.values, before, after)
    modifies s`values, s`disturbed, s.journalFile`files, s.journalFile`disturbed
    ensures old(s.disturbed) ==> s.disturbed
    ensures old(s.journalFile.disturbed) ==> s.journalFile.disturbed
    ensures s.Valid() && s.RestoresTo(before) && EachOf(s.values, before, after)
    ensures r.Done? ==> s.values == before
    ensures r.Failed? ==> r.code == RecoveryIncomplete
  {
    ghost var start := s.values;
    ghost var stop, fault;
    r, stop := s.RestoreValues(prepared.changes, before);
    PutBackIsEachOf(start, prepared.changes, FirstPutBack(prepared.changes, stop), before, after);
    MarkerLeads(s.values, s.journalFile.files, false, s.codec, prepared, before);
    if !r.Done? { return; }
    MarkerLeads(s.values, s.journalFile.files, true, s.codec, prepared, before);
    r, fault := s.RemoveJournal();
  }

  /** The rollback after the generation or the marker could not be saved: it restores the floors and the
      values and removes the journal, each whatever the others reported. It is `LateRollback` under the
      faults that it drew. */
  method UndoLate(s: RegistryStore, prepared: RegistryJournal, previous: Floors, ghost before: Values)
    returns (r: Outcome, ghost faults: LateFaults)
    requires s.Valid() && ValidFloors(previous)
    modifies s`values, s`disturbed, s.generations, s.journalFile, s.generations.file
    ensures old(s.disturbed) ==> s.disturbed
    ensures old(s.journalFile.disturbed) ==> s.journalFile.disturbed
    ensures old(s.generations.file.disturbed) ==> s.generations.file.disturbed
    ensures s.Valid()
    ensures ValidStop(prepared.changes, faults.restore)
    ensures LateRollback(old(s.values), old(s.journalFile.files), prepared.changes, faults)
            == Late(s.values, s.journalFile.files, r)
    ensures faults.floors == s.generations.Persisted()
    ensures faults.save.Done? ==> faults.floors == Some(previous)
    ensures s.lossOnly && faults.restore.Some? ==> !faults.restore.value.fault.IsError()
    ensures s.journalFile.lossOnly ==> !faults.removal.IsError()
  {
    s.generations.floors := previous;
    var generationRestored := s.generations.Save();
    faults := LateFaults(generationRestored, s.generations.Persisted(), None, NoFault);
    if generationRestored.PowerLoss? { return PowerLoss, faults; }
    ghost var stop, fault;
    var valuesRestored;
    valuesRestored, stop := s.RestoreValues(prepared.changes, before);
    faults := faults.(restore := stop);
    if valuesRestored.PowerLoss? { return PowerLoss, faults; }
    var journalRemoved;
    journalRemoved, fault := s.RemoveJournal();
    faults := faults.(removal := fault);
    if journalRemoved.PowerLoss? { return PowerLoss, faults; }
    if generationRestored.Done? && valuesRestored.Done? && journalRemoved.Done? { return Done, faults; }
    return Failed(RecoveryIncomplete), faults;
  }

  /** A late rollback that an apply ran: where the journal write had stopped, and the faults. */
  datatype LateRun = LateRun(files: Trio, faults: LateFaults)

  /** The store is as this late rollback of the new values leaves it, and the report is the rollback's. */
  ghost predicate Ran(s: RegistryStore, m: VerifiedRegistrySet, before: Values, after: Values, late: LateRun, r: Outcome)
    reads s, s.journalFile, s.generations, s.generations.file
  {
    var changes := Snapshots(m.settings, before);
    && MarkerStop(late.files, s.codec, PreparedJournal(m, before))
    && ValidStop(changes, late.faults.restore)
    && late.faults.floors == s.generations.Persisted()
    && var end := LateRollback(after, late.files, changes, late.faults);
       && s.values == end.values && s.journalFile.files == end.files
       && (if end.outcome.Done? then r.Failed? else r == end.outcome)
  }

  /** The faults of this late rollback break all-or-nothing. */
  ghost predicate Stranded(s: RegistryStore, m: VerifiedRegistrySet, before: Values, after: Values, late: LateRun)
    reads s
    requires ValidStop(Snapshots(m.settings, before), late.faults.restore)
  {
    Strands(m, late.files, s.codec.encode(PreparedJournal(m, before)), Snapshots(m.settings, before), after, late.faults)
  }

  /** What a finished late rollback means. */
  lemma RanExactly(s: RegistryStore, m: VerifiedRegistrySet, before: Values, after: Values, late: LateRun, r: Outcome)
    requires s.Valid() && m.Valid() && Updates(before, after, m.settings) && Ran(s, m, before, after, late, r)
    ensures AllOrNothing(s, before, after, m) <==> !Stranded(s, m, before, after, late)
    ensures EachOf(s.values, before, after)
    ensures Stranded(s, m, before, after, late) ==> s.RestoresTo(s.values)
    ensures LateRollback(after, late.files, Snapshots(m.settings, before), late.faults).outcome.Done? ==>
              s.values == before && s.RestoresTo(before)
  {
    var prepared := PreparedJournal(m, before);
    SnapshotFacts(m, before, after);
    LateRollbackExactly(m, late.files, s.codec, prepared, before, after, late.faults);
    LateRollbackValues(late.files, s.codec, prepared, before, after, late.faults);
  }

  /** The same, with what it means for the caller of the rollback. `undone` is the rollback's own report. */
  lemma RanMeans(s: RegistryStore, m: VerifiedRegistrySet, before: Values, after: Values, late: LateRun, r: Outcome,
                 undone: Outcome)
    requires s.Valid() && m.Valid() && Updates(before, after, m.settings) && Ran(s, m, before, after, late, r)
    requires undone == LateRollback(after, late.files, Snapshots(m.settings, before), late.faults).outcome
    ensures AllOrNothing(s, before, after, m) <==> !Stranded(s, m, before, after, late)
    ensures EachOf(s.values, before, after)
    ensures undone.Done? ==> s.values == before && s.RestoresTo(before)
    ensures late.files == Trio(Some(s.codec.encode(PreparedJournal(m, before))), None, None)
            && (late.faults.restore.Some? ==> !late.faults.restore.value.fault.IsError())
            ==> AllOrNothing(s, before, after, m)
  {
    RanExactly(s, m, before, after, late, r);
    if late.files == Trio(Some(s.codec.encode(PreparedJournal(m, before))), None, None)
       && (late.faults.restore.Some? ==> !late.faults.restore.value.fault.IsError())
    {
      LossesNeverStrand(m, s.codec.encode(PreparedJournal(m, before)), Snapshots(m.settings, before), after, late.faults);
    }
  }

  /** `apply_registry_set_transaction`, from any state whose outstanding journal changes nothing. Every
      value is always old or new. What it reports is true: Ok means that every listed value is new and its
      generation on disk, an error other than RecoveryIncomplete that every value is as before. Recovery
      leaves all values old, or all new with their generation on disk, unless a late rollback ran, and
      then exactly unless its faults stranded the values; where faults are power losses only they never
      do. Without a fault an applicable set is applied. */
  method ApplyRegistrySet(s: RegistryStore, m: VerifiedRegistrySet)
    returns (r: Outcome, ghost after: Values, ghost late: Option<LateRun>)
    requires s.Valid() && m.Valid() && s.RestoresTo(s.values)
    modifies s`values, s`disturbed, s.generations, s.journalFile, s.generations.file
    ensures s.Valid()
    ensures Updates(old(s.values), after, m.settings) && EachOf(s.values, old(s.values), after)
    ensures late.None? ==> AllOrNothing(s, old(s.values), after, m)
    ensures late.Some? ==>
      && Ran(s, m, old(s.values), after, late.value, r)
      && (AllOrNothing(s, old(s.values), after, m) <==> !Stranded(s, m, old(s.values), after, late.value))
    ensures LossOnly(s) ==> AllOrNothing(s, old(s.values), after, m)
    ensures r.Done? ==> s.values == after && GenerationOnDisk(s, m) && s.journalFile.files == Trio(None, None, None)
    ensures r.Failed? && r.code != RecoveryIncomplete ==> s.values == old(s.values) && s.RestoresTo(old(s.values))
    ensures Undisturbed(s) && old(Applicable(s, m)) ==> r.Done?
  {
    ghost var before := s.values;
    late := None;
    after := UpdatedValues(before, m.settings);
    SnapshotFacts(m, before, after);
    var changes;
    r, changes := TakeSnapshots(s, m);
    if !r.Done? { return; }
    var prepared := RegistryJournal(PreparedPhase, m.scopeId, changes);
    WrittenReverts(before, before, m.settings, 0, changes);
    r := s.WriteJournal(prepared);
    assert s.codec.parse(s.codec.encode(prepared)) == Some(prepared);
    if !r.Done? { return; }
    r, late := WriteAndCommit(s, m, prepared, before, after);
  }

  /** From the durable Prepared record on. */
  method WriteAndCommit(s: RegistryStore, m: VerifiedRegistrySet, prepared: RegistryJournal, ghost before: Values,
                        ghost after: Values)
    returns (r: Outcome, ghost late: Option<LateRun>)
    requires s.Valid() && m.Valid() && s.values == before && Updates(before, after, m.settings)
    requires prepared == PreparedJournal(m, before) && |s.codec.encode(prepared)| <= MAX_REGISTRY_TRANSACTION_BYTES
    requires s.journalFile.files == Trio(Some(s.codec.encode(prepared)), None, None)
    modifies s`values, s`disturbed, s.generations, s.journalFile, s.generations.file
    ensures old(s.disturbed) ==> s.disturbed
    ensures old(s.journalFile.disturbed) ==> s.journalFile.disturbed
    ensures s.Valid() && EachOf(s.values, before, after)
    ensures late.None? ==> AllOrNothing(s, before, after, m)
    ensures late.Some? ==>
      && Ran(s, m, before, after, late.value, r)
      && (AllOrNothing(s, before, after, m) <==> !Stranded(s, m, before, after, late.value))
    ensures LossOnly(s) ==> AllOrNothing(s, before, after, m)
    ensures r.Done? ==> s.values == after && GenerationOnDisk(s, m) && s.journalFile.files == Trio(None, None, None)
    ensures r.Failed? && r.code != RecoveryIncomplete ==> s.values == before && s.RestoresTo(before)
    ensures Undisturbed(s) && old(GenerationFits(s, m)) && |s.codec.encode(CommittedRecord(prepared))| <= MAX_REGISTRY_TRANSACTION_BYTES
      ==> r.Done?
  {
    late := None;
    SnapshotFacts(m, before, after);
    UpdatesAreUnique(before, UpdatedValues(before, m.settings), after, m.settings);
    r := WriteSettings(s, m, prepared.changes, before);
    MarkerLeads(s.values, s.journalFile.files, false, s.codec, prepared, before);
    if r.PowerLoss? { return; }
    if r.Failed? {
      var undone := UndoWrites(s, prepared, before, after);
      if !undone.Done? { r := undone; }
      return;
    }
    UpdatesAreUnique(before, s.values, after, m.settings);
    r, late := CommitValues(s, m, prepared, before, after);
  }

  /** From written values on: the generation, the marker and the removal of the journal. */
  method CommitValues(s: RegistryStore, m: VerifiedRegistrySet, prepared: RegistryJournal, ghost before: Values,
                      ghost after: Values)
    returns (r: Outcome, ghost late: Option<LateRun>)
    requires s.Valid() && m.Valid() && s.values == after && Updates(before, after, m.settings)
    requires prepared == PreparedJournal(m, before) && |s.codec.encode(prepared)| <= MAX_REGISTRY_TRANSACTION_BYTES
    requires s.journalFile.files == Trio(Some(s.codec.encode(prepared)), None, None)
    modifies s`values, s`disturbed, s.generations, s.journalFile, s.generations.file
    ensures old(s.disturbed) ==> s.disturbed
    ensures old(s.journalFile.disturbed) ==> s.journalFile.disturbed
    ensures old(s.generations.file.disturbed) ==> s.generations.file.disturbed
    ensures s.Valid() && EachOf(s.values, before, after)
    ensures late.None? ==> AllOrNothing(s, before, after, m)
    ensures late.Some? ==>
      && Ran(s, m, before, after, late.value, r)
      && (AllOrNothing(s, before, after, m) <==> !Stranded(s, m, before, after, late.value))
    ensures LossOnly(s) ==> AllOrNothing(s, before, after, m)
    ensures r.Done? ==> s.values == after && GenerationOnDisk(s, m) && s.journalFile.files == Trio(None, None, None)
    ensures r.Failed? && r.code != RecoveryIncomplete ==> s.values == before && s.RestoresTo(before)
    ensures Undisturbed(s) && old(GenerationFits(s, m)) && |s.codec.encode(CommittedRecord(prepared))| <= MAX_REGISTRY_TRANSACTION_BYTES
      ==> r.Done?
  {
    late := None;
    SnapshotFacts(m, before, after);
    MarkerLeads(after, s.journalFile.files, false, s.codec, prepared, before);
    var previous := s.generations.floors;
    r := SaveGeneration(s, m);
    if r.PowerLoss? { return; }
    if r.Failed? {
      r, late := FailLate(s, m, prepared, previous, r.code, before, after);
      return;
    }
    r := s.WriteJournal(CommittedRecord(prepared));
    MarkerLeads(after, s.journalFile.files, false, s.codec, prepared, before);
    if r.PowerLoss? { return; }
    if r.Failed? {
      r, late := FailLate(s, m, prepared, previous, RegistryIo, before, after);
      return;
    }
    MarkerLeads(after, s.journalFile.files, true, s.codec, prepared, before);
    ghost var fault;
    r, fault := s.RemoveJournal();
  }

  ghost predicate GenerationFits(s: RegistryStore, m: VerifiedRegistrySet)
    reads s, s.generations, s.generations.file
  {
    var accepted := Accept(s.generations.floors, m.scopeId, m.record);
    && Tidy(s.generations.file.files)
    && accepted.Ok? && |s.generations.codec.encode(accepted.value)| <= MAX_GENERATION_REGISTRY_BYTES
  }

  /** The generation is accepted and saved. */
  method SaveGeneration(s: RegistryStore, m: VerifiedRegistrySet) returns (r: Outcome)
    requires s.Valid() && m.Valid()
    modifies s.generations, s.generations.file
    ensures s.Valid()
    ensures r.Done? ==> GenerationOnDisk(s, m)
    ensures old(s.generations.file.disturbed) ==> s.generations.file.disturbed
    ensures !s.generations.file.disturbed && old(GenerationFits(s, m)) ==> r.Done?
  {
    var accepted := Accept(s.generations.floors, m.scopeId, m.record);
    if accepted.Err? { return Failed(accepted.error); }
    s.generations.floors := accepted.value;
    r := s.generations.Save();
  }

  /** Ends an apply by a late rollback, with the error that caused it if the rollback completes. */
  method FailLate(s: RegistryStore, m: VerifiedRegistrySet, prepared: RegistryJournal, previous: Floors, code: ErrorCode,
                  ghost before: Values, ghost after: Values)
    returns (r: Outcome, ghost late: Option<LateRun>)
    requires s.Valid() && m.Valid() && ValidFloors(previous)
    requires s.values == after && Updates(before, after, m.settings)
    requires prepared == PreparedJournal(m, before) && MarkerStop(s.journalFile.files, s.codec, prepared)
    requires LossOnly(s) ==> s.journalFile.files == Trio(Some(s.codec.encode(prepared)), None, None)
    modifies s`values, s`disturbed, s.generations, s.journalFile, s.generations.file
    ensures old(s.disturbed) ==> s.disturbed
    ensures old(s.journalFile.disturbed) ==> s.journalFile.disturbed
    ensures old(s.generations.file.disturbed) ==> s.generations.file.disturbed
    ensures s.Valid() && EachOf(s.values, before, after)
    ensures late.Some? && Ran(s, m, before, after, late.value, r)
    ensures AllOrNothing(s, before, after, m) <==> !Stranded(s, m, before, after, late.value)
    ensures LossOnly(s) ==> AllOrNothing(s, before, after, m)
    ensures !r.Done?
    ensures r.Failed? && r.code != RecoveryIncomplete ==> s.values == before && s.RestoresTo(before)
  {
    var undone;
    r, undone, late := RunLate(s, m, prepared, previous, code, before, after);
    RanMeans(s, m, before, after, late.value, r, undone);
  }

  method RunLate(s: RegistryStore, m: VerifiedRegistrySet, prepared: RegistryJournal, previous: Floors, code: ErrorCode,
                 ghost before: Values, ghost after: Values)
    returns (r: Outcome, undone: Outcome, ghost late: Option<LateRun>)
    requires s.Valid() && ValidFloors(previous) && s.values == after
    requires prepared == PreparedJournal(m, before) && MarkerStop(s.journalFile.files, s.codec, prepared)
    modifies s`values, s`disturbed, s.generations, s.journalFile, s.generations.file
    ensures old(s.disturbed) ==> s.disturbed
    ensures old(s.journalFile.disturbed) ==> s.journalFile.disturbed
    ensures old(s.generations.file.disturbed) ==> s.generations.file.disturbed
    ensures s.Valid() && late.Some? && late.value.files == old(s.journalFile.files)
    ensures Ran(s, m, before, after, late.value, r)
    ensures undone == LateRollback(after, late.value.files, Snapshots(m.settings, before), late.value.faults).outcome
    ensures r == if undone.Done? then Failed(code) else undone
    ensures undone.Failed? ==> undone.code == RecoveryIncomplete
    ensures s.lossOnly && late.value.faults.restore.Some? ==> !late.value.faults.restore.value.fault.IsError()
  {
    ghost var files := s.journalFile.files;
    ghost var faults;
    undone, faults := UndoLate(s, prepared, previous, before);
    r := if undone.Done? then Failed(code) else undone;
    late := Some(LateRun(files, faults));
  }

  /** An apply, and then any number of starts until one has recovered. Then every listed value is old, or
      every one is new with its generation on disk, exactly unless a late rollback's faults stranded them;
      in that case the values are those that the rollback left. */
  method ApplyAcrossRestarts(s: RegistryStore, m: VerifiedRegistrySet, registered: bool, starts: nat)
    returns (applied: Outcome, recovered: bool, ghost after: Values, ghost late: Option<LateRun>, ghost stranded: bool)
    requires s.Valid() && m.Valid() && s.RestoresTo(s.values)
    modifies s`values, s`disturbed, s.generations, s.journalFile, s.generations.file
    ensures s.Valid() && Updates(old(s.values), after, m.settings) && (LossOnly(s) ==> !stranded)
    ensures stranded ==>
      && late.Some? && ValidStop(Snapshots(m.settings, old(s.values)), late.value.faults.restore)
      && MarkerStop(late.value.files, s.codec, PreparedJournal(m, old(s.values)))
      && late.value.faults.floors == s.generations.Persisted()
      && Stranded(s, m, old(s.values), after, late.value)
      && s.RestoresTo(LateRollback(after, late.value.files, Snapshots(m.settings, old(s.values)), late.value.faults).values)
    ensures AllOrNothing(s, old(s.values), after, m) <==> !stranded
    ensures recovered ==>
      && s.journalFile.files == Trio(None, None, None)
      && (s.values == old(s.values) || (s.values == after && GenerationOnDisk(s, m)) <==> !stranded)
      && EachOf(s.values, old(s.values), after)
  {
    ghost var before := s.values;
    applied, after, late := ApplyRegistrySet(s, m);
    stranded := late.Some? && Stranded(s, m, before, after, late.value);
    if late.Some? { RanExactly(s, m, before, after, late.value, applied); }
    ghost var goal := if stranded then s.values else if s.RestoresTo(before) then before else after;
    ghost var floors := s.generations.Persisted();
    WholeByResult(s.values, s.journalFile.files, s.codec, floors, m, before, after, goal);
    recovered := false;
    for start := 0 to starts
      invariant s.Valid() && !recovered && s.RestoresTo(goal) && s.generations.Persisted() == floors
    {
      var r := s.Recover(registered, goal);
      WholeByResult(s.values, s.journalFile.files, s.codec, floors, m, before, after, goal);
      if r.Done? { return applied, true, after, late, stranded; }
    }
    WholeByResult(s.values, s.journalFile.files, s.codec, floors, m, before, after, goal);
  }

  /** The values after the whole set. */
  ghost function UpdatedValues(before: Values, settings: seq<Setting>): (after: Values)
    requires forall i, j :: 0 <= i < j < |settings| ==> Lower(settings[i].name) != Lower(settings[j].name)
    ensures Updates(before, after, settings)
  {
    UpdatedIsWritten(before, settings, |settings|);
    UpdatedTo(before, settings, |settings|)
  }

  ghost function UpdatedTo(before: Values, settings: seq<Setting>, n: nat): Values
    requires n <= |settings|
  {
    if n == 0 then before else UpdatedTo(before, settings, n - 1)[Lower(settings[n - 1].name) := settings[n - 1].stored]
  }

  lemma {:induction false} UpdatedIsWritten(before: Values, settings: seq<Setting>, n: nat)
    requires forall i, j :: 0 <= i < j < |settings| ==> Lower(settings[i].name) != Lower(settings[j].name)
    requires n <= |settings|
    ensures Written(UpdatedTo(before, settings, n), before, settings, n)
  {
    if n > 0 {
      UpdatedIsWritten(before, settings, n - 1);
      var so := UpdatedTo(before, settings, n - 1);
      WriteNext(so, before, settings, n - 1);
      assert UpdatedTo(before, settings, n) == so[Lower(settings[n - 1].name) := settings[n - 1].stored];
    } else {
      assert UpdatedTo(before, settings, 0) == before;
    }
  }

  lemma UpdatesAreUnique(before: Values, a: Values, b: Values, settings: seq<Setting>)
    requires Updates(before, a, settings) && Updates(before, b, settings)
    ensures a == b
  {
    forall name ensures Lookup(a, name) == Lookup(b, name) {
      if i :| 0 <= i < |settings| && Lower(settings[i].name) == name {
        assert Lookup(a, Lower(settings[i].name)) == Some(settings[i].stored);
      }
    }
    SameValues(a, b);
  }

  lemma WrittenIsEachOf(values: Values, before: Values, settings: seq<Setting>, n: nat)
    requires n <= |settings| && Written(values, before, settings, n)
    requires forall i, j :: 0 <= i < j < |settings| ==> Lower(settings[i].name) != Lower(settings[j].name)
    ensures EachOf(values, before, UpdatedValues(before, settings))
  {
    forall name ensures Lookup(values, name) in {Lookup(before, name), Lookup(UpdatedValues(before, settings), name)} {
      if i :| 0 <= i < n && Lower(settings[i].name) == name {
        assert Lookup(values, Lower(settings[i].name)) == Some(settings[i].stored);
      } else {
        assert Lookup(values, name) == Lookup(before, name);
      }
    }
  }

  lemma {:induction false} PutBackIsEachOf(values: Values, changes: seq<Change>, k: nat, before: Values, after: Values)
    requires k <= |changes| && EachOf(values, before, after) && Reverts(values, changes, before)
    ensures EachOf(PutBackFrom(values, changes, k), before, after)
    decreases |changes| - k
  {
    if k < |changes| {
      PutBackIsEachOf(values, changes, k + 1, before, after);
      assert Lookup(before, Lower(changes[k].name)) == changes[k].previous;
    }
  }
}
