/** The late rollback of a registry apply as a function of its faults: it puts the floors and the values
    back and removes the journal, each step whatever the others reported. When that keeps all or nothing
    is decided by the faults alone. */
module RegistryRollbacks {
  import opened Outcomes
  import opened Text
  import opened ProtectedFiles
  import opened Generations
  import opened RegistrySets

  /** The faults of one late rollback: how saving the floors ended and which floors a later start reads
      after it, the fault that stopped the restore, and the fault of the removal. */
  datatype LateFaults = LateFaults(save: Outcome, floors: Option<Floors>, restore: Option<RestoreFault>, removal: Fault)

  datatype Late = Late(values: Values, files: Trio, outcome: Outcome)

  function LateRollback(values: Values, files: Trio, changes: seq<Change>, faults: LateFaults): Late
    requires ValidStop(changes, faults.restore)
  {
    if faults.save.PowerLoss? then Late(values, files, PowerLoss)
    else
      var (restored, restoring) := RestoreRun(values, changes, faults.restore);
      if restoring.PowerLoss? then Late(restored, files, PowerLoss)
      else
        var (left, removing) := RemovalRun(files, faults.removal);
        var outcome :=
          if removing.PowerLoss? then PowerLoss
          else if faults.save.Done? && restoring.Done? && removing.Done? then Done
          else Failed(RecoveryIncomplete);
        Late(restored, left, outcome)
  }

  // ---- the condition ----------------------------------------------------------------------

  /** The first value that the rollback put back. */
  function FirstBack(changes: seq<Change>, faults: LateFaults): (first: nat)
    requires ValidStop(changes, faults.restore)
    ensures first <= |changes|
  {
    if faults.save.PowerLoss? then |changes| else FirstPutBack(changes, faults.restore)
  }

  /** The removal is reached and takes effect. */
  predicate Removes(files: Trio, faults: LateFaults) {
    && !faults.save.PowerLoss?
    && (faults.restore.Some? ==> !faults.restore.value.fault.Report().PowerLoss?)
    && files.main.Some? && !faults.removal.Before()
  }

  /** The next start still reads the Prepared record, and so the snapshots. */
  predicate SnapshotsSurvive(files: Trio, prepared: Bytes, faults: LateFaults) {
    Recovered(if Removes(files, faults) then files.(main := None) else files) == Some(prepared)
  }

  /** The k-th value was really changed by the apply. */
  predicate Changed(changes: seq<Change>, after: Values, k: nat)
    requires k < |changes|
  {
    Lookup(after, Lower(changes[k].name)) != changes[k].previous
  }

  ghost predicate LeavesNew(changes: seq<Change>, after: Values, faults: LateFaults)
    requires ValidStop(changes, faults.restore)
  {
    exists k :: 0 <= k < FirstBack(changes, faults) && Changed(changes, after, k)
  }

  ghost predicate BringsBackOld(changes: seq<Change>, after: Values, faults: LateFaults)
    requires ValidStop(changes, faults.restore)
  {
    exists k :: FirstBack(changes, faults) <= k < |changes| && Changed(changes, after, k)
  }

  /** The floors on disk name this set's generation. */
  predicate FloorHolds(floors: Option<Floors>, m: VerifiedRegistrySet) {
    floors.Some? && Lookup(floors.value, m.scopeId) == Some(m.record)
  }

  /** The faults under which a late rollback breaks all-or-nothing: the snapshots are lost to the next
      start, some changed value stays new, and either another one is old again or the floor that the new
      values need is not on disk. */
  ghost predicate Strands(m: VerifiedRegistrySet, files: Trio, prepared: Bytes, changes: seq<Change>, after: Values,
                          faults: LateFaults)
    requires ValidStop(changes, faults.restore)
  {
    && !SnapshotsSurvive(files, prepared, faults)
    && LeavesNew(changes, after, faults)
    && (BringsBackOld(changes, after, faults) || !FloorHolds(faults.floors, m))
  }

  // ---- what is in place -------------------------------------------------------------------

  /** The names of the snapshots differ ignoring case. */
  ghost predicate DistinctNames(changes: seq<Change>) {
    forall i, j :: 0 <= i < j < |changes| ==> Lower(changes[i].name) != Lower(changes[j].name)
  }

  lemma {:induction false} PutBackValues(values: Values, changes: seq<Change>, k: nat)
    requires k <= |changes| && DistinctNames(changes)
    ensures forall i :: k <= i < |changes| ==> Lookup(PutBackFrom(values, changes, k), Lower(changes[i].name)) == changes[i].previous
    ensures forall i :: 0 <= i < k ==>
              Lookup(PutBackFrom(values, changes, k), Lower(changes[i].name)) == Lookup(values, Lower(changes[i].name))
    ensures forall name :: !Listed(changes, name) ==> Lookup(PutBackFrom(values, changes, k), name) == Lookup(values, name)
    decreases |changes| - k
  {
    if k < |changes| { PutBackValues(values, changes, k + 1); }
  }

  lemma LateValues(values: Values, files: Trio, changes: seq<Change>, faults: LateFaults)
    requires ValidStop(changes, faults.restore)
    ensures LateRollback(values, files, changes, faults).values == PutBackFrom(values, changes, FirstBack(changes, faults))
    ensures LateRollback(values, files, changes, faults).files == if Removes(files, faults) then files.(main := None) else files
  {}

  /** One value after the k-th and later ones were put back. */
  lemma ValueAfterPutBack(before: Values, after: Values, changes: seq<Change>, k: nat, name: string)
    requires k <= |changes| && DistinctNames(changes) && Reverts(after, changes, before)
    ensures var now := Lookup(PutBackFrom(after, changes, k), name);
      && ((forall i :: 0 <= i < k ==> !Changed(changes, after, i)) ==> now == Lookup(before, name))
      && ((forall i :: k <= i < |changes| ==> !Changed(changes, after, i)) ==> now == Lookup(after, name))
      && now in {Lookup(before, name), Lookup(after, name)}
  {
    PutBackValues(after, changes, k);
    if Listed(changes, name) {
      var i :| 0 <= i < |changes| && Lower(changes[i].name) == name;
      assert Lookup(before, Lower(changes[i].name)) == changes[i].previous;
      assert Changed(changes, after, i) <==> Lookup(after, name) != Lookup(before, name);
    }
  }

  /** The values are old exactly when no changed value was left, and new exactly when none was put back. */
  lemma OldOrNew(before: Values, after: Values, changes: seq<Change>, k: nat)
    requires k <= |changes| && DistinctNames(changes) && Reverts(after, changes, before)
    ensures PutBackFrom(after, changes, k) == before <==> forall i :: 0 <= i < k ==> !Changed(changes, after, i)
    ensures PutBackFrom(after, changes, k) == after <==> forall i :: k <= i < |changes| ==> !Changed(changes, after, i)
  {
    var values := PutBackFrom(after, changes, k);
    PutBackValues(after, changes, k);
    if forall i :: 0 <= i < k ==> !Changed(changes, after, i) {
      forall name ensures Lookup(values, name) == Lookup(before, name) { ValueAfterPutBack(before, after, changes, k, name); }
      SameValues(values, before);
    }
    if forall i :: k <= i < |changes| ==> !Changed(changes, after, i) {
      forall name ensures Lookup(values, name) == Lookup(after, name) { ValueAfterPutBack(before, after, changes, k, name); }
      SameValues(values, after);
    }
  }

  /** Every value is as before or as after the apply, whatever was put back. */
  lemma EachOldOrNew(before: Values, after: Values, changes: seq<Change>, k: nat)
    requires k <= |changes| && DistinctNames(changes) && Reverts(after, changes, before)
    ensures EachOf(PutBackFrom(after, changes, k), before, after)
  {
    forall name ensures Lookup(PutBackFrom(after, changes, k), name) in {Lookup(before, name), Lookup(after, name)} {
      ValueAfterPutBack(before, after, changes, k, name);
    }
  }

  ghost predicate EachOf(values: Values, a: Values, b: Values) {
    forall name :: Lookup(values, name) in {Lookup(a, name), Lookup(b, name)}
  }

  /** Recovery leaves the old values, or the new ones with their generation on disk. */
  ghost predicate Whole(values: Values, files: Trio, codec: JournalCodec, floors: Option<Floors>, m: VerifiedRegistrySet,
                        before: Values, after: Values)
  {
    Leads(values, files, codec, before) || (Leads(values, files, codec, after) && FloorHolds(floors, m))
  }

  lemma RevertsIsUnique(values: Values, changes: seq<Change>, a: Values, b: Values)
    requires Reverts(values, changes, a) && Reverts(values, changes, b)
    ensures a == b
  {
    forall name ensures Lookup(a, name) == Lookup(b, name) {
      if Listed(changes, name) { var i :| 0 <= i < |changes| && Lower(changes[i].name) == name; }
    }
    SameValues(a, b);
  }

  /** Recovery has one result, so it decides whether the outcome is whole. */
  lemma WholeByResult(values: Values, files: Trio, codec: JournalCodec, floors: Option<Floors>, m: VerifiedRegistrySet,
                      before: Values, after: Values, goal: Values)
    requires Leads(values, files, codec, goal)
    ensures Whole(values, files, codec, floors, m, before, after) <==> goal == before || (goal == after && FloorHolds(floors, m))
  {
    forall other | Leads(values, files, codec, other) ensures other == goal {
      if Recovered(files).Some? {
        var j := codec.parse(Recovered(files).value).value;
        if j.phase.PreparedPhase? { RevertsIsUnique(values, j.changes, goal, other); }
      }
    }
  }

  function CommittedRecord(prepared: RegistryJournal): RegistryJournal { prepared.(phase := CommittedPhase) }

  /** Where the write of the Committed marker over the Prepared record can have stopped. */
  ghost predicate MarkerStop(files: Trio, codec: JournalCodec, prepared: RegistryJournal) {
    var p, c := codec.encode(prepared), codec.encode(CommittedRecord(prepared));
    && prepared.phase.PreparedPhase? && |p| <= MAX_REGISTRY_TRANSACTION_BYTES
    && (|| files == Trio(Some(p), None, None)
        || (|c| <= MAX_REGISTRY_TRANSACTION_BYTES && Replacing(files, Some(p), c, c)))
  }

  /** What the next start makes of the values beside such a journal, main file removed or not. */
  lemma MarkerLeads(values: Values, files: Trio, removed: bool, codec: JournalCodec, prepared: RegistryJournal, before: Values)
    requires codec.Faithful() && MarkerStop(files, codec, prepared) && Reverts(values, prepared.changes, before)
    ensures var left := if removed then files.(main := None) else files;
      if Recovered(left) == Some(codec.encode(prepared)) then Leads(values, left, codec, before)
      else forall goal :: Leads(values, left, codec, goal) <==> goal == values
  {
    assert codec.parse(codec.encode(prepared)) == Some(prepared);
    assert codec.parse(codec.encode(CommittedRecord(prepared))) == Some(CommittedRecord(prepared));
  }

  lemma {:induction false} PutBackReverts(values: Values, changes: seq<Change>, k: nat, goal: Values)
    requires k <= |changes| && Reverts(values, changes, goal)
    ensures Reverts(PutBackFrom(values, changes, k), changes, goal)
    decreases |changes| - k
  {
    if k < |changes| {
      PutBackReverts(values, changes, k + 1, goal);
      var more := PutBackFrom(values, changes, k + 1);
      RestoreKeeps(more, PutBack(more, changes[k]), changes, k, goal);
    }
  }

  /** A late rollback, from wherever the marker write stopped and under any faults, keeps all or nothing
      exactly when its faults do not strand the values. */
  lemma LateRollbackExactly(m: VerifiedRegistrySet, files: Trio, codec: JournalCodec, prepared: RegistryJournal,
                            before: Values, after: Values, faults: LateFaults)
    requires codec.Faithful() && MarkerStop(files, codec, prepared) && DistinctNames(prepared.changes)
    requires Reverts(after, prepared.changes, before) && ValidStop(prepared.changes, faults.restore)
    ensures var late := LateRollback(after, files, prepared.changes, faults);
      Whole(late.values, late.files, codec, faults.floors, m, before, after) <==>
      !Strands(m, files, codec.encode(prepared), prepared.changes, after, faults)
  {
    var first := FirstBack(prepared.changes, faults);
    LateValues(after, files, prepared.changes, faults);
    PutBackReverts(after, prepared.changes, first, before);
    MarkerLeads(PutBackFrom(after, prepared.changes, first), files, Removes(files, faults), codec, prepared, before);
    OldOrNew(before, after, prepared.changes, first);
  }

  /** What else such a late rollback means for the values. */
  lemma LateRollbackValues(files: Trio, codec: JournalCodec, prepared: RegistryJournal, before: Values, after: Values,
                           faults: LateFaults)
    requires codec.Faithful() && MarkerStop(files, codec, prepared) && DistinctNames(prepared.changes)
    requires Reverts(after, prepared.changes, before) && ValidStop(prepared.changes, faults.restore)
    ensures var late := LateRollback(after, files, prepared.changes, faults);
      && EachOf(late.values, before, after)
      && (late.outcome.Done? ==> late.values == before && Leads(before, late.files, codec, before))
      && (!SnapshotsSurvive(files, codec.encode(prepared), faults) ==> Leads(late.values, late.files, codec, late.values))
  {
    var first := FirstBack(prepared.changes, faults);
    LateValues(after, files, prepared.changes, faults);
    EachOldOrNew(before, after, prepared.changes, first);
    PutBackReverts(after, prepared.changes, first, before);
    MarkerLeads(PutBackFrom(after, prepared.changes, first), files, Removes(files, faults), codec, prepared, before);
    OldOrNew(before, after, prepared.changes, first);
  }

  /** Without I/O errors, and with the marker not yet written, no faults strand the values. */
  lemma LossesNeverStrand(m: VerifiedRegistrySet, prepared: Bytes, changes: seq<Change>, after: Values, faults: LateFaults)
    requires ValidStop(changes, faults.restore)
    requires faults.restore.Some? ==> !faults.restore.value.fault.IsError()
    ensures !Strands(m, Trio(Some(prepared), None, None), prepared, changes, after, faults)
  {}

  // ---- the failures -----------------------------------------------------------------------

  /** An apply of two values that really changes both. */
  ghost predicate TwoChanges(changes: seq<Change>, after: Values) {
    && |changes| == 2 && DistinctNames(changes)
    && Changed(changes, after, 0) && Changed(changes, after, 1)
  }

  /** First failure: the generation could not be saved, the restore put the second value back and failed
      on the first, and the journal was removed all the same. */
  lemma FailedRestoreLosesSnapshots(m: VerifiedRegistrySet, prepared: Bytes, changes: seq<Change>, after: Values,
                                    floors: Option<Floors>, code: ErrorCode)
    requires TwoChanges(changes, after)
    ensures var files := Trio(Some(prepared), None, None);
      var faults := LateFaults(Done, floors, Some(RestoreFault(0, FailBefore(code))), NoFault);
      && LateRollback(after, files, changes, faults)
         == Late(PutBack(after, changes[1]), Trio(None, None, None), Failed(RecoveryIncomplete))
      && Strands(m, files, prepared, changes, after, faults)
  {
    var faults := LateFaults(Done, floors, Some(RestoreFault(0, FailBefore(code))), NoFault);
    assert PutBackFrom(after, changes, 2) == after;
    assert Changed(changes, after, 0) && FirstBack(changes, faults) == 1;
  }

  /** Where the marker write stops when its second rename and the undo of the first one both fail: the
      Committed record is what the next start reads. */
  lemma MarkerDurableAfterFailure(prepared: Bytes, committed: Bytes)
    requires prepared != committed
    ensures var files := Moved(Trio(Some(prepared), Some(committed), None), Main, Backup);
      && files == Trio(None, Some(committed), Some(prepared))
      && Replacing(files, Some(prepared), committed, committed)
      && Recovered(files) == Some(committed)
  {}

  /** Second failure: after such a marker write power is lost in the restore, with one of two values put
      back. */
  lemma LossUnderDurableMarker(m: VerifiedRegistrySet, prepared: Bytes, committed: Bytes, changes: seq<Change>,
                               after: Values, floors: Option<Floors>)
    requires TwoChanges(changes, after) && prepared != committed
    ensures var files := Trio(None, Some(committed), Some(prepared));
      var faults := LateFaults(Done, floors, Some(RestoreFault(0, LossBefore)), NoFault);
      && LateRollback(after, files, changes, faults) == Late(PutBack(after, changes[1]), files, PowerLoss)
      && Strands(m, files, prepared, changes, after, faults)
  {
    var faults := LateFaults(Done, floors, Some(RestoreFault(0, LossBefore)), NoFault);
    assert PutBackFrom(after, changes, 2) == after;
    assert Changed(changes, after, 0) && FirstBack(changes, faults) == 1;
  }

  /** Third failure: after such a marker write the floors are put back and then power is lost. The values
      stay new without their generation. */
  lemma LossAfterFloorsUnderDurableMarker(m: VerifiedRegistrySet, prepared: Bytes, committed: Bytes, changes: seq<Change>,
                                          after: Values, floors: Option<Floors>)
    requires TwoChanges(changes, after) && prepared != committed && !FloorHolds(floors, m)
    ensures var files := Trio(None, Some(committed), Some(prepared));
      var faults := LateFaults(PowerLoss, floors, None, NoFault);
      && LateRollback(after, files, changes, faults) == Late(after, files, PowerLoss)
      && Strands(m, files, prepared, changes, after, faults)
  {
    var faults := LateFaults(PowerLoss, floors, None, NoFault);
    assert Changed(changes, after, 0) && FirstBack(changes, faults) == 2;
  }
}
