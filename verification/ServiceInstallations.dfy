/** The installer's upgrade of the service: four phases of a persisted journal drive real moves between
    the live, candidate and previous executables, and a later run resumes from the journal. The release
    record and the journal are protected files; here each is the content that its recovery reads, so a
    write ends with the old or the new content (module ProtectedFiles). */
module ServiceInstallations {
  import opened Outcomes
  import opened Text
  import opened ServiceUpgrades

  type Bytes = seq<byte>

  /** Where the SCM entry says the service executable is. */
  datatype Place = Managed | Legacy

  /** The executables by path, the SCM entry and the two protected files. */
  datatype Machine = Machine(
    live: Option<Bytes>, candidate: Option<Bytes>, previous: Option<Bytes>, legacy: Option<Bytes>,
    service: Option<Place>, release: Option<Release>, journal: Option<UpgradeJournal>)

  /** A signed bundle: its release record and its executable. */
  datatype Bundle = Bundle(release: Release, image: Bytes)

  /** The executable to be replaced and where it was, or none for a first installation. */
  datatype Old = Old(place: Place, image: Bytes, release: Release)

  function At(m: Machine, place: Place): Option<Bytes> {
    match place
    case Managed => m.live
    case Legacy => m.legacy
  }

  // ---- where the old executable is --------------------------------------------------------

  /** Nothing moved: the old executable is at its place, and the SCM entry names that place. */
  ghost predicate Untouched(m: Machine, was: Option<Old>) {
    && m.previous.None?
    && (was.Some? ==> At(m, was.value.place) == Some(was.value.image) && m.service == Some(was.value.place))
  }

  /** The old executable was moved aside, and its place holds the new one at most. */
  ghost predicate Retained(m: Machine, was: Option<Old>, image: Bytes) {
    && was.Some?
    && m.previous == Some(was.value.image)
    && (if was.value.place.Managed? then m.live in {None, Some(image)} else m.legacy.None?)
    && m.service.Some?
  }

  ghost predicate Switched(m: Machine, image: Bytes) { m.live == Some(image) && m.service == Some(Managed) }

  /** What holds of the machine while the journal is in its phase. */
  ghost predicate InPhase(m: Machine, phase: UpgradePhase, was: Option<Old>, b: Bundle) {
    && m.candidate in {None, Some(b.image)}
    && match phase
       case Staged =>
         Untouched(m, was) && m.release == OldRelease(was)
       case OldStopped =>
         (Untouched(m, was) || Retained(m, was, b.image)) && m.release == OldRelease(was)
       case ConfigSwitched =>
         Switched(m, b.image) && m.release == OldRelease(was)
         && (if was.Some? then Retained(m, was, b.image) else m.previous.None?)
       case Healthy =>
         Switched(m, b.image)
         && (|| (m.release == OldRelease(was) && (if was.Some? then Retained(m, was, b.image) else m.previous.None?))
             || (m.release == Some(b.release) && (m.previous.None? || Retained(m, was, b.image))))
  }

  /** The upgrade's own steps from Staged and OldStopped find the candidate staged and the source named. */
  ghost predicate Sourced(m: Machine, phase: UpgradePhase, source: Option<Place>, was: Option<Old>, b: Bundle) {
    phase in {Staged, OldStopped} ==>
      m.candidate == Some(b.image) && (Untouched(m, was) && was.Some? ==> source == Some(was.value.place))
  }

  function OldRelease(was: Option<Old>): Option<Release> {
    if was.Some? then Some(was.value.release) else None
  }

  /** The upgrade is under way: the journal is this bundle's, and the machine is in its phase. */
  ghost predicate UnderWay(m: Machine, was: Option<Old>, b: Bundle) {
    && m.journal.Some?
    && m.journal.value.candidate == b.release && m.journal.value.previous == OldRelease(was)
    && InPhase(m, m.journal.value.phase, was, b)
  }

  /** The upgrade has not started. */
  ghost predicate Ready(m: Machine, was: Option<Old>, b: Bundle) {
    m.journal.None? && InPhase(m, Staged, was, b) && (was.None? ==> m.service.None?)
  }

  ghost predicate Finished(m: Machine, b: Bundle) {
    && m.journal.None? && Switched(m, b.image) && m.release == Some(b.release)
    && m.previous.None? && m.candidate in {None, Some(b.image)}
  }

  /** Every state that attempts, failures and power losses before a rollback can leave. */
  ghost predicate Resumable(m: Machine, was: Option<Old>, b: Bundle) {
    Ready(m, was, b) || UnderWay(m, was, b) || Finished(m, b)
  }

  // ---- rollback -----------------------------------------------------------------------------

  /** What a rollback can leave while its journal remains: the old executable is retained or live again,
      never both and never neither; for a first installation the parts that are still to be deleted. */
  ghost predicate RollingBack(m: Machine, was: Option<Old>, b: Bundle) {
    && m.journal == Some(UpgradeJournal(b.release, OldRelease(was), ConfigSwitched))
    && m.release == OldRelease(was) && m.candidate in {None, Some(b.image)}
    && match was
       case Some(first) =>
         && m.service == Some(Managed) && (first.place.Legacy? ==> m.legacy.None?)
         && (|| (m.previous == Some(first.image) && m.live in {None, Some(b.image)})
             || (m.previous.None? && m.live == Some(first.image)))
       case None =>
         && m.previous.None? && m.live in {None, Some(b.image)}
         && m.service in {None, Some(Managed)} && (m.service.None? ==> m.live.None?)
  }

  /** The rollback moved the old executable back and stopped before its journal was removed. */
  ghost predicate Torn(m: Machine, was: Option<Old>, b: Bundle) {
    RollingBack(m, was, b) && was.Some? && m.previous.None?
  }

  /** The old executable is gone. */
  ghost predicate Stranded(m: Machine, was: Option<Old>, b: Bundle) {
    && was.Some? && m.live.None? && m.previous.None? && m.service == Some(Managed)
    && m.journal == Some(UpgradeJournal(b.release, OldRelease(was), ConfigSwitched))
    && m.release == OldRelease(was) && m.candidate in {None, Some(b.image)}
  }

  ghost predicate AfterRollback(m: Machine, was: Option<Old>, b: Bundle) {
    RollingBack(m, was, b) || Stranded(m, was, b)
  }

  /** A completed rollback: the old service is live with its release, or nothing is installed. */
  ghost predicate RolledBack(m: Machine, was: Option<Old>, b: Bundle) {
    && m.journal.None? && m.previous.None? && m.release == OldRelease(was) && m.candidate in {None, Some(b.image)}
    && (if was.Some? then m.live == Some(was.value.image) && m.service == Some(Managed)
        else m.live.None? && m.candidate.None? && m.service.None?)
  }

  /** The old executable does not answer with the candidate's version. */
  predicate Distinct(was: Option<Old>, b: Bundle, versionOf: Bytes -> Version) {
    was.Some? ==> versionOf(was.value.image) != b.release.version
  }

  /** The release record of the old executable names its version. */
  predicate TrueRecord(was: Option<Old>, versionOf: Bytes -> Version) {
    was.Some? ==> versionOf(was.value.image) == was.value.release.version
  }

  /** The live executable has the candidate's version. */
  predicate Answers(m: Machine, b: Bundle, versionOf: Bytes -> Version) {
    m.live.Some? && versionOf(m.live.value) == b.release.version
  }

  /** A rollback has what it needs: the previous executable, or the entry of a first installation. */
  ghost predicate CanRollBack(m: Machine, was: Option<Old>) {
    if was.Some? then m.previous.Some? else m.service.Some?
  }

  /** What `execute_service_upgrade` is called with: the journal found, or a new one. */
  ghost predicate Startable(m: Machine, start: UpgradeJournal, source: Option<Place>, was: Option<Old>, b: Bundle) {
    && start.candidate == b.release && start.previous == OldRelease(was)
    && InPhase(m, start.phase, was, b) && Sourced(m, start.phase, source, was, b)
    && (m.journal == Some(start) || (Ready(m, was, b) && start.phase.Staged?))
  }

  /** Where a rollback of an upgrade under way can stop. */
  ghost predicate RollbackLeft(m: Machine, was: Option<Old>, b: Bundle) {
    RollingBack(m, was, b) || RolledBack(m, was, b)
  }

  ghost predicate PhaseLeft(m: Machine, was: Option<Old>, b: Bundle, r: Outcome, rolledBack: bool) {
    && (if rolledBack then !r.Done? && RollbackLeft(m, was, b) else UnderWay(m, was, b))
    && (rolledBack && r.Failed? && r.code != RecoveryIncomplete ==> RolledBack(m, was, b))
  }

  /** Where an attempt at an upgrade can stop. */
  ghost predicate AttemptLeft(m: Machine, was: Option<Old>, b: Bundle, r: Outcome, rolledBack: bool) {
    && (if rolledBack then !r.Done? && RollbackLeft(m, was, b) else Resumable(m, was, b))
    && (rolledBack && r.Failed? && r.code != RecoveryIncomplete ==> RolledBack(m, was, b))
  }

  ghost predicate RetryEnded(before: Machine, m: Machine, was: Option<Old>, b: Bundle, r: Outcome, rolledBack: bool) {
    && !r.Done? && RetryLeft(before, m, was, b)
    && (rolledBack && r.Failed? && r.code != RecoveryIncomplete ==> RolledBack(m, was, b))
  }

  /** Where another attempt after a rollback can stop: it completes the rollback only if it can, and it
      loses the old executable only if the rollback was torn. */
  ghost predicate RetryLeft(before: Machine, m: Machine, was: Option<Old>, b: Bundle) {
    && (AfterRollback(m, was, b) || RolledBack(m, was, b))
    && (Stranded(m, was, b) ==> Torn(before, was, b) || Stranded(before, was, b))
    && (RolledBack(m, was, b) ==> CanRollBack(before, was))
  }

  /** What a rollback without faults does: it completes if it can, and otherwise the old executable is gone. */
  ghost predicate Retried(before: Machine, m: Machine, was: Option<Old>, b: Bundle, healthy: bool, versionOf: Bytes -> Version) {
    && (healthy && CanRollBack(before, was) && TrueRecord(was, versionOf) ==> RolledBack(m, was, b))
    && (was.Some? && !CanRollBack(before, was) ==> Stranded(m, was, b))
  }

  /** After a rollback began to move files, the candidate cannot pass the health check. */
  lemma RetriesDoNotAnswer(m: Machine, was: Option<Old>, b: Bundle, versionOf: Bytes -> Version)
    requires AfterRollback(m, was, b) && !UnderWay(m, was, b) && Distinct(was, b, versionOf)
    ensures !Answers(m, b, versionOf)
  {}

  /** Where the old executable is after a rollback: at the managed place. */
  function AtManaged(was: Option<Old>): Option<Old> {
    if was.Some? then Some(was.value.(place := Managed)) else None
  }

  /** An upgrade to `b`, or none, but the candidate path holds other bytes. */
  ghost predicate Blocked(m: Machine, was: Option<Old>, b: Bundle) {
    m.candidate !in {None, Some(b.image)} && Resumable(m.(candidate := None), was, b)
  }

  /** A completed rollback leaves a machine on which the same bundle can be tried again. Another one can be
      exactly if no candidate was left behind or its bytes are those of the other bundle. */
  lemma RolledBackIsReady(m: Machine, was: Option<Old>, b: Bundle, other: Bundle)
    requires RolledBack(m, was, b)
    ensures Ready(m, AtManaged(was), b)
    ensures Ready(m, AtManaged(was), other) <==> m.candidate in {None, Some(other.image)}
    ensures Blocked(m, AtManaged(was), other) <==> m.candidate !in {None, Some(other.image)}
  {}

  /** An upgrade to the candidate cannot confuse the two executables if the release record of the old one
      is true. */
  lemma TrueRecordIsDistinct(was: Option<Old>, b: Bundle, versionOf: Bytes -> Version)
    requires Decide(b.release, OldRelease(was)) in {Ok(FreshInstall), Ok(Upgrade)}
    requires TrueRecord(was, versionOf)
    ensures Distinct(was, b, versionOf)
  {}

  /** Until the upgrade is healthy and its release recorded, the old executable is in exactly one of two
      places: where it was, or retained for a rollback. */
  lemma OldIsInExactlyOnePlace(m: Machine, was: Option<Old>, b: Bundle)
    requires Resumable(m, was, b) && was.Some? && m.release != Some(b.release)
    ensures Untouched(m, was) || Retained(m, was, b.image)
    ensures m.previous == Some(was.value.image) <==> m.previous.Some?
    ensures m.previous.None? <==> Untouched(m, was)
  {}

  /** The bundle is the first or may follow the old release (`ServiceUpgrades.DecidesByWeight`). */
  predicate Acceptable(b: Bundle, was: Option<Old>) {
    Decide(b.release, OldRelease(was)) in {Ok(FreshInstall), Ok(Upgrade)}
  }

  /** An older version of the supported major version than the one installed. */
  ghost predicate Downgrade(b: Bundle, was: Option<Old>) {
    && was.Some? && b.release.version.Valid() && was.value.release.version.Valid()
    && b.release.version.major == was.value.release.version.major == PROTOCOL_MAJOR
    && Weight(b.release.version) < Weight(was.value.release.version)
  }

  class Installation {
    /** Steps only lose power, and a started service answers. */
    const healthy: bool
    var m: Machine
    ghost var disturbed: bool

    constructor (m: Machine, healthy: bool)
      ensures this.m == m && this.healthy == healthy && !disturbed
    {
      this.m, this.healthy, disturbed := m, healthy, false;
    }

    /** A step of the SCM, the keyring or another check, with no effect on the modelled state. */
    method Check() returns (r: Outcome)
      modifies this`disturbed
      ensures old(disturbed) ==> disturbed
      ensures !disturbed ==> r.Done?
      ensures healthy ==> !r.Failed?
    {
      var fault: Fault := *;
      fault := fault.Within(healthy);
      disturbed := disturbed || fault != NoFault;
      r := fault.Report();
    }

    /** One durable step from `m` to `after`. */
    method Step(after: Machine) returns (r: Outcome)
      modifies this
      ensures old(disturbed) ==> disturbed
      ensures !disturbed ==> r.Done?
      ensures r.Done? ==> m == after
      ensures m == old(m) || m == after
      ensures healthy ==> !r.Failed?
    {
      var fault: Fault := *;
      fault := fault.Within(healthy);
      disturbed := disturbed || fault != NoFault;
      if !fault.Before() { m := after; }
      r := fault.Report();
    }

    /** `stage_candidate_binary`: the temporary copy is verified before it is renamed to the candidate
        path, and an existing candidate must be the bundle's own. */
    method StageCandidate(b: Bundle) returns (r: Outcome)
      modifies this
      ensures old(disturbed) ==> disturbed
      ensures m == old(m) || (old(m).candidate.None? && m == old(m).(candidate := Some(b.image)))
      ensures r.Done? ==> m.candidate == Some(b.image)
      ensures old(m).candidate !in {None, Some(b.image)} ==> !r.Done? && (!disturbed ==> r == Failed(FileSetHash))
      ensures old(m).candidate in {None, Some(b.image)} ==> (!disturbed ==> r.Done?) && (healthy ==> !r.Failed?)
    {
      r := Check();
      if !r.Done? { return; }
      if m.candidate.Some? {
        return if m.candidate == Some(b.image) then Done else Failed(FileSetHash);
      }
      r := Step(m.(candidate := Some(b.image)));
    }

    /** `activate_staged_service_binary_at`. `source` is the place that the SCM entry names. */
    method ActivateBinary(source: Option<Place>, ghost was: Option<Old>, b: Bundle) returns (r: Outcome)
      requires m.candidate == Some(b.image)
      requires Untouched(m, was) || Retained(m, was, b.image)
      requires Untouched(m, was) && was.Some? ==> source == Some(was.value.place)
      requires source.Some? <==> was.Some?
      modifies this
      ensures old(disturbed) ==> disturbed
      ensures m.service == old(m).service && m.release == old(m).release && m.journal == old(m).journal
      ensures Untouched(m, was) || Retained(m, was, b.image)
      ensures m.candidate in {None, Some(b.image)}
      ensures r.Done? ==> m.live == Some(b.image) && m.candidate.None? && (was.Some? ==> Retained(m, was, b.image))
      ensures (!disturbed ==> r.Done?) && (healthy ==> !r.Failed?)
    {
      r := Check();
      if !r.Done? { return; }
      if source.Some? && m.previous.None? {
        var image := At(m, source.value);
        if image.None? { return Failed(RecoveryIncomplete); }
        match source.value {
          case Managed => r := Step(m.(live := None, previous := image));
          case Legacy => r := Step(m.(legacy := None, previous := image));
        }
      } else {
        r := Step(m.(live := None));
      }
      if !r.Done? { return; }
      if m.candidate.None? { return Failed(RecoveryIncomplete); }
      r := Step(m.(live := m.candidate, candidate := None));
    }

    /** `activate_candidate`. */
    method ActivateCandidate(source: Option<Place>, ghost was: Option<Old>, b: Bundle) returns (r: Outcome)
      requires m.candidate == Some(b.image)
      requires Untouched(m, was) || Retained(m, was, b.image)
      requires Untouched(m, was) && was.Some? ==> source == Some(was.value.place)
      requires source.Some? <==> was.Some?
      modifies this
      ensures old(disturbed) ==> disturbed
      ensures m.release == old(m).release && m.journal == old(m).journal
      ensures Untouched(m, was) || Retained(m, was, b.image)
      ensures m.candidate in {None, Some(b.image)}
      ensures r.Done? ==> Switched(m, b.image) && (if was.Some? then Retained(m, was, b.image) else m.previous.None?)
      ensures r.Done? ==> m.candidate.None?
      ensures (!disturbed ==> r.Done?) && (healthy ==> !r.Failed?)
    {
      r := ActivateBinary(source, was, b);
      if !r.Done? { return; }
      if m.service.None? {
        r := Step(m.(service := Some(Managed)));
        if !r.Done? { return; }
      }
      if m.service != Some(Managed) {
        r := Step(m.(service := Some(Managed)));
        if !r.Done? { return; }
      }
      r := Check();
    }

    /** `persist_journal`: the record of the next phase, or of the same one again. */
    method PersistJournal(j: UpgradeJournal) returns (r: Outcome)
      modifies this
      ensures old(disturbed) ==> disturbed
      ensures r.Done? ==> m == old(m).(journal := Some(j))
      ensures m == old(m) || m == old(m).(journal := Some(j))
      ensures (!disturbed ==> r.Done?) && (healthy ==> !r.Failed?)
    {
      r := Step(m.(journal := Some(j)));
    }

    /** The checked transition to `phase`, then its record. */
    method AdvanceJournal(j: UpgradeJournal, phase: UpgradePhase) returns (r: Outcome, next: UpgradeJournal)
      modifies this
      ensures old(disturbed) ==> disturbed
      ensures r.Done? ==> Advance(j, phase) == Ok(next) && m == old(m).(journal := Some(next))
      ensures m == old(m) || (Advance(j, phase).Ok? && m == old(m).(journal := Some(j.(phase := phase))))
      ensures Advance(j, phase).Err? ==> r == Failed(TransactionState)
      ensures Advance(j, phase).Ok? ==> (!disturbed ==> r.Done?) && (healthy ==> !r.Failed?)
    {
      next := j;
      match Advance(j, phase) {
        case Err(code) => r := Failed(code);
        case Ok(advanced) =>
          next := advanced;
          r := PersistJournal(advanced);
      }
    }

    /** `finalize_upgrade`. */
    method FinalizeUpgrade(ghost was: Option<Old>, b: Bundle) returns (r: Outcome)
      requires InPhase(m, Healthy, was, b)
      modifies this
      ensures old(disturbed) ==> disturbed
      ensures InPhase(m, Healthy, was, b) && m.journal == old(m).journal
      ensures r.Done? ==> m.release == Some(b.release) && m.previous.None? && m.candidate.None?
      ensures (!disturbed ==> r.Done?) && (healthy ==> !r.Failed?)
    {
      r := Check();
      if !r.Done? { return; }
      r := Step(m.(release := Some(b.release)));
      if !r.Done? { return; }
      r := Step(m.(previous := None));
      if !r.Done? { return; }
      r := Step(m.(candidate := None));
    }

    /** `verify_candidate_health`. The running service answers with the version of the live executable,
        so it is healthy only if that version is the candidate's; it need not be healthy even then. */
    method VerifyHealth(b: Bundle, versionOf: Bytes -> Version) returns (r: Outcome)
      modifies this
      ensures old(disturbed) ==> disturbed
      ensures m == old(m) || (m.service.Some? && m == old(m).(service := Some(Managed)))
      ensures r.Done? ==> m.service == Some(Managed) && Answers(m, b, versionOf)
      ensures r.PowerLoss? ==> disturbed
      ensures healthy && m.service.Some? && Answers(m, b, versionOf) ==> !r.Failed?
      ensures old(m).service.None? ==> r == Failed(RecoveryIncomplete) && m == old(m)
    {
      if m.service.None? { return Failed(RecoveryIncomplete); }
      if m.service != Some(Managed) {
        r := Step(m.(service := Some(Managed)));
        if !r.Done? { return; }
      }
      r := Check();
      if !r.Done? { return; }
      var answers: bool := *;
      if !(answers || healthy) || !Answers(m, b, versionOf) { return Failed(ProtocolVersion); }
    }

    /** `restore_previous_service_binary_at` deletes the live executable before it knows that there is a
        previous one: without faults it succeeds exactly if there is, and otherwise it leaves neither. */
    method RestorePrevious() returns (r: Outcome)
      modifies this
      ensures old(disturbed) || r.PowerLoss? ==> disturbed
      ensures r.Done? ==> m == old(m).(live := old(m).previous, previous := None) && m.live.Some?
      ensures m in {old(m), old(m).(live := None), old(m).(live := old(m).previous, previous := None)}
      ensures old(m).previous.None? ==> !r.Done? && (!disturbed ==> m == old(m).(live := None))
      ensures !disturbed && old(m).previous.Some? ==> r.Done?
    {
      r := Step(m.(live := None));
      if !r.Done? { return; }
      if m.previous.None? { return Failed(RecoveryIncomplete); }
      r := Step(m.(live := m.previous, previous := None));
    }

    /** `rollback_service` for an upgrade. Without faults it restores the old service exactly if the previous
        executable is present; restoring cannot be repeated, because a second try deletes what the first
        one restored. */
    method RollBackUpgrade(expected: Release, versionOf: Bytes -> Version) returns (r: Outcome)
      requires m.service == Some(Managed)
      modifies this
      ensures old(disturbed) || r.PowerLoss? ==> disturbed
      ensures m in {old(m), old(m).(live := None), old(m).(live := old(m).previous, previous := None)}
      ensures r.Done? ==> m == old(m).(live := old(m).previous, previous := None) && m.live.Some?
      ensures old(m).previous.None? ==> !r.Done? && (!disturbed ==> m.live.None? && m.previous.None? && r.Failed?)
      ensures !disturbed && old(m).previous.Some? ==> m == old(m).(live := old(m).previous, previous := None)
      ensures !disturbed && healthy && old(m).previous.Some? && versionOf(old(m).previous.value) == expected.version ==> r.Done?
    {
      r := Check();
      if !r.Done? { return; }
      r := RestorePrevious();
      if !r.Done? { return; }
      r := Step(m.(service := Some(Managed)));
      if !r.Done? { return; }
      r := Check();
      if !r.Done? { return; }
      var answers: bool := *;
      if !(answers || healthy) || versionOf(m.live.value) != expected.version { return Failed(ProtocolVersion); }
    }

    /** `rollback_service` for a first installation. */
    method RollBackInstall() returns (r: Outcome)
      modifies this
      ensures old(disturbed) || r.PowerLoss? ==> disturbed
      ensures m in {
        old(m), old(m).(live := None), old(m).(live := None, candidate := None),
        old(m).(live := None, candidate := None, service := None)}
      ensures r.Done? ==> m == old(m).(live := None, candidate := None, service := None) && old(m).service.Some?
      ensures old(m).service.None? ==> !r.Done?
      ensures !disturbed ==> if old(m).service.Some? then r.Done? else r.Failed?
    {
      r := Check();
      if !r.Done? { return; }
      r := Step(m.(live := None));
      if !r.Done? { return; }
      r := Step(m.(candidate := None));
      if !r.Done? { return; }
      if m.service.None? { return Failed(RecoveryIncomplete); }
      r := Step(m.(service := None));
    }

    /** `rollback_service` on a machine where the rollback may have stopped before. */
    method RollBack(previous: Option<Release>, ghost was: Option<Old>, b: Bundle, versionOf: Bytes -> Version) returns (r: Outcome)
      requires AfterRollback(m, was, b) && previous == OldRelease(was)
      modifies this
      ensures old(disturbed) || r.PowerLoss? ==> disturbed
      ensures AfterRollback(m, was, b) && RetryLeft(old(m), m, was, b)
      ensures was.Some? ==> m.candidate == old(m).candidate
      ensures r.Done? ==> RolledBack(m.(journal := None), was, b) && CanRollBack(old(m), was)
      ensures !disturbed && healthy && CanRollBack(old(m), was) && TrueRecord(was, versionOf) ==> r.Done?
      ensures !disturbed && !CanRollBack(old(m), was) ==> r.Failed? && (was.Some? ==> Stranded(m, was, b))
    {
      if previous.Some? {
        r := RollBackUpgrade(previous.value, versionOf);
      } else {
        r := RollBackInstall();
      }
    }

    /** The unhealthy branch of `execute_service_upgrade`. */
    method HandleUnhealthy(
      previous: Option<Release>, health: ErrorCode, ghost was: Option<Old>, b: Bundle, versionOf: Bytes -> Version) returns (r: Outcome)
      requires AfterRollback(m, was, b) && previous == OldRelease(was)
      modifies this
      ensures old(disturbed) ==> disturbed
      ensures r.PowerLoss? || (r.Failed? && r.code in {health, RecoveryIncomplete})
      ensures RetryLeft(old(m), m, was, b)
      ensures was.Some? ==> m.candidate == old(m).candidate
      ensures r.Failed? && r.code != RecoveryIncomplete ==> RolledBack(m, was, b)
      ensures !disturbed ==> r.Failed? && Retried(old(m), m, was, b, healthy, versionOf)
      ensures !disturbed && !CanRollBack(old(m), was) ==> r == Failed(RecoveryIncomplete)
    {
      r := RollBack(previous, was, b, versionOf);
      if r.PowerLoss? { return; }
      if r.Failed? { return Failed(RecoveryIncomplete); }
      r := Step(m.(journal := None));
      if r.PowerLoss? { return; }
      return Failed(if r.Failed? then RecoveryIncomplete else health);
    }

    /** The ConfigSwitched phase: the health check, and the rollback if it fails. */
    method CheckOrRollBack(j: UpgradeJournal, ghost was: Option<Old>, b: Bundle, versionOf: Bytes -> Version)
      returns (r: Outcome, rolledBack: bool)
      requires m.journal == Some(j) && AfterRollback(m, was, b)
      modifies this
      ensures old(disturbed) ==> disturbed
      ensures !rolledBack ==> m == old(m) && !r.Failed?
      ensures r.Done? ==> !rolledBack && Answers(m, b, versionOf)
      ensures RetryLeft(old(m), m, was, b)
      ensures was.Some? ==> m.candidate == old(m).candidate
      ensures rolledBack && r.Failed? && r.code != RecoveryIncomplete ==> RolledBack(m, was, b)
      ensures healthy && old(m).service.Some? && Answers(old(m), b, versionOf) ==> !rolledBack
      ensures !disturbed && !rolledBack ==> r.Done?
      ensures !disturbed && rolledBack ==> Retried(old(m), m, was, b, healthy, versionOf)
      ensures !disturbed && rolledBack && !CanRollBack(old(m), was) ==> r == Failed(RecoveryIncomplete)
    {
      rolledBack := false;
      r := VerifyHealth(b, versionOf);
      if r.Failed? {
        rolledBack := true;
        r := HandleUnhealthy(j.previous, r.code, was, b, versionOf);
      }
    }

    /** One phase of `execute_service_upgrade` before Healthy: the step, then the next journal record. */
    method RunPhase(j: UpgradeJournal, source: Option<Place>, ghost was: Option<Old>, b: Bundle, versionOf: Bytes -> Version)
      returns (r: Outcome, next: UpgradeJournal, rolledBack: bool)
      requires m.journal == Some(j) && !j.phase.Healthy?
      requires UnderWay(m, was, b) || (AfterRollback(m, was, b) && Distinct(was, b, versionOf))
      requires UnderWay(m, was, b) ==> Sourced(m, j.phase, source, was, b)
      requires source.Some? <==> was.Some?
      modifies this
      ensures old(disturbed) ==> disturbed
      ensures r.Done? ==> m.journal == Some(next) && Rank(next.phase) == Rank(j.phase) - 1 && Sourced(m, next.phase, source, was, b)
      ensures old(UnderWay(m, was, b)) ==> PhaseLeft(m, was, b, r, rolledBack)
      ensures old(UnderWay(m, was, b)) && healthy && versionOf(b.image) == b.release.version ==> !rolledBack && !r.Failed?
      ensures old(UnderWay(m, was, b)) && !disturbed && !rolledBack ==> r.Done?
      ensures !old(UnderWay(m, was, b)) ==> RetryEnded(old(m), m, was, b, r, rolledBack) && !Answers(old(m), b, versionOf)
      ensures was.Some? && j.phase.ConfigSwitched? ==> m.candidate == old(m).candidate
      ensures (rolledBack ==> j.phase.ConfigSwitched?) && (r.Done? && j.phase.ConfigSwitched? ==> Answers(old(m), b, versionOf))
      ensures r.Done? && j.phase.OldStopped? ==> m.candidate.None?
      ensures old(AfterRollback(m, was, b)) && !disturbed && !Answers(old(m), b, versionOf) ==>
        && rolledBack && Retried(old(m), m, was, b, healthy, versionOf)
        && (!CanRollBack(old(m), was) ==> r == Failed(RecoveryIncomplete))
    {
      next, rolledBack := j, false;
      match j.phase {
        case Staged =>
          r := Check();  // stop the service
          if !r.Done? { return; }
          r, next := AdvanceJournal(j, OldStopped);
        case OldStopped =>
          r := ActivateCandidate(source, was, b);
          if !r.Done? { return; }
          r, next := AdvanceJournal(j, ConfigSwitched);
        case ConfigSwitched =>
          if !UnderWay(m, was, b) { RetriesDoNotAnswer(m, was, b, versionOf); }
          r, rolledBack := CheckOrRollBack(j, was, b, versionOf);
          if !r.Done? { return; }
          r, next := AdvanceJournal(j, Healthy);
        case Healthy =>
      }
    }

    /** `execute_service_upgrade`, also when it is entered again after an interrupted rollback. */
    method Execute(start: UpgradeJournal, source: Option<Place>, ghost was: Option<Old>, b: Bundle, versionOf: Bytes -> Version)
      returns (r: Outcome, rolledBack: bool)
      requires m.candidate == Some(b.image)
      requires Startable(m, start, source, was, b) || (m.journal == Some(start) && AfterRollback(m, was, b) && Distinct(was, b, versionOf))
      requires source.Some? <==> was.Some?
      modifies this
      ensures old(disturbed) ==> disturbed
      ensures r.Done? ==> Finished(m, b) && m.candidate.None?
      ensures old(Resumable(m, was, b)) ==> AttemptLeft(m, was, b, r, rolledBack)
      ensures old(Resumable(m, was, b)) && healthy && versionOf(b.image) == b.release.version ==> !rolledBack && !r.Failed?
      ensures old(Resumable(m, was, b)) && !disturbed && !rolledBack ==> r.Done?
      ensures !old(Resumable(m, was, b)) ==> RetryEnded(old(m), m, was, b, r, rolledBack) && !Answers(old(m), b, versionOf)
      ensures rolledBack && was.Some? ==> m.candidate == if start.phase.ConfigSwitched? then Some(b.image) else None
      ensures old(AfterRollback(m, was, b)) && !disturbed && !Answers(old(m), b, versionOf) ==>
        && rolledBack && Retried(old(m), m, was, b, healthy, versionOf)
        && (!CanRollBack(old(m), was) ==> r == Failed(RecoveryIncomplete))
    {
      rolledBack := false;
      if !Resumable(m, was, b) { RetriesDoNotAnswer(m, was, b, versionOf); }
      r := PersistJournal(start);
      if !r.Done? { return; }
      var j := start;
      while !j.phase.Healthy?
        invariant old(disturbed) ==> disturbed
        invariant m.journal == Some(j) && r.Done? && !rolledBack
        invariant if old(Resumable(m, was, b)) then UnderWay(m, was, b) && Sourced(m, j.phase, source, was, b)
                  else m == old(m) && j == start
        invariant j.phase.ConfigSwitched? ==> m.candidate == if start.phase.ConfigSwitched? then Some(b.image) else None
        invariant j == start ==> m == old(m).(journal := Some(start))
        invariant old(AfterRollback(m, was, b)) && j != start ==> Answers(old(m), b, versionOf)
        invariant Rank(j.phase) <= Rank(start.phase) && (j != start ==> Rank(j.phase) < Rank(start.phase))
        decreases Rank(j.phase)
      {
        r, j, rolledBack := RunPhase(j, source, was, b, versionOf);
        if !r.Done? { return; }
      }
      r := FinalizeUpgrade(was, b);
      if !r.Done? { return; }
      r := Step(m.(journal := None));
    }

    /** The failing run: a rollback that has moved the old executable back loses power before its journal is
        removed, and the next attempt, without any fault, deletes that executable. */
    method RestoreThenRetry(ghost was: Option<Old>, b: Bundle, versionOf: Bytes -> Version) returns (r: Outcome)
      requires UnderWay(m, was, b) && m.journal.value.phase.ConfigSwitched? && was.Some? && m.candidate == Some(b.image)
      requires Distinct(was, b, versionOf) && was.value.image != b.image
      modifies this
      ensures !disturbed ==> r == Failed(RecoveryIncomplete) && m.live.None? && m.previous.None? && Stranded(m, was, b)
    {
      var start := m.journal.value;
      r := RestorePrevious();
      if !r.Done? { return; }
      // The power loss is here: nothing of the first attempt runs after this point.
      var rolledBack;
      r, rolledBack := Execute(start, m.service, was, b, versionOf);
    }

    /** `install_system_service`, from any state that earlier attempts at this bundle left, and also with the
        candidate of another bundle in the way. That one is refused until somebody removes it. A bundle that may
        not follow the installed release is refused before anything changes. */
    method Ensure(b: Bundle, ghost was: Option<Old>, versionOf: Bytes -> Version) returns (r: Outcome, rolledBack: bool)
      requires
        || Resumable(m, was, b) || Blocked(m, was, b)
        || (AfterRollback(m, was, b) && Distinct(was, b, versionOf))
      requires Acceptable(b, was) || Ready(m.(candidate := None), was, b)
      modifies this
      ensures old(disturbed) ==> disturbed
      ensures !Acceptable(b, was) ==> m == old(m) && !rolledBack && (r.Done? ==> Switched(m, b.image))
      ensures Downgrade(b, was) ==> m == old(m) && !rolledBack && (Admitted(old(m)) ==> r == Failed(FileSetRollback))
      ensures Admitted(old(m)) && Decide(b.release, old(m).release).Err? ==> r == Failed(Decide(b.release, old(m).release).error)
      ensures r.Done? && Acceptable(b, was) && !old(Blocked(m, was, b)) ==>
        Finished(m, b) && (!Finished(old(m), b) ==> m.candidate.None?)
      ensures !Admitted(old(m)) ==> r == Failed(RecoveryIncomplete) && m == old(m) && !rolledBack
      ensures old(Blocked(m, was, b)) ==> m == old(m) && !rolledBack
      ensures old(Blocked(m, was, b)) && Acceptable(b, was) && r.Done? ==> Finished(m.(candidate := None), b)
      ensures old(Blocked(m, was, b)) && Acceptable(b, was) && !disturbed && Admitted(old(m)) ==>
        !Finished(old(m).(candidate := None), b) ==> r == Failed(FileSetHash)
      ensures old(Resumable(m, was, b)) ==> AttemptLeft(m, was, b, r, rolledBack)
      ensures old(Resumable(m, was, b)) && Acceptable(b, was) && healthy && versionOf(b.image) == b.release.version ==>
        !rolledBack && (Admitted(old(m)) ==> !r.Failed?)
      ensures old(Resumable(m, was, b)) && Acceptable(b, was) && !disturbed && Admitted(old(m)) && !rolledBack ==> r.Done?
      ensures old(AfterRollback(m, was, b)) && !old(Resumable(m, was, b)) ==>
        RetryEnded(old(m), m, was, b, r, rolledBack) && !Answers(old(m), b, versionOf)
      ensures rolledBack && was.Some? && old(AfterRollback(m, was, b)) ==> m.candidate == Some(b.image)
      ensures old(AfterRollback(m, was, b)) && !disturbed && Admitted(old(m)) && !Answers(old(m), b, versionOf) ==>
        && rolledBack && Retried(old(m), m, was, b, healthy, versionOf)
        && (!CanRollBack(old(m), was) ==> r == Failed(RecoveryIncomplete))
    {
      rolledBack := false;
      if Downgrade(b, was) { DecidesByWeight(b.release, was.value.release); }
      if m.service.Some? && m.release.None? { return Failed(RecoveryIncomplete), false; }
      var decision := Decide(b.release, m.release);
      if decision.Err? { return Failed(decision.error), false; }
      if m.journal.Some? {
        var journal := m.journal.value;
        if journal.candidate != b.release || (journal.previous != m.release && m.release != Some(b.release)) {
          return Failed(TransactionConflict), false;
        }
        if journal.previous.Some? && m.service.None? { return Failed(RecoveryIncomplete), false; }
        r := StageCandidate(b);
        if !r.Done? { return; }
        r, rolledBack := Execute(journal, if journal.previous.Some? then m.service else None, was, b, versionOf);
      } else if decision.value.KeepCompatible? {
        r := VerifyCurrent(b);
      } else {
        if decision.value.Upgrade? && m.service.None? { return Failed(RecoveryIncomplete), false; }
        r := StageCandidate(b);
        if !r.Done? { return; }
        var source := if decision.value.Upgrade? then m.service else None;
        r, rolledBack := Execute(UpgradeJournal(b.release, m.release, Staged), source, was, b, versionOf);
      }
    }

    /** The failing run: an upgrade resumed after its switch stages its candidate again, finds the new service
        unhealthy and rolls back completely; the bundle that would repair it is then refused. */
    method RollBackThenOther(b: Bundle, other: Bundle, ghost was: Option<Old>, versionOf: Bytes -> Version)
      returns (r: Outcome, refused: Outcome)
      requires UnderWay(m, was, b) && m.journal.value.phase.ConfigSwitched? && was.Some?
      requires Decide(b.release, OldRelease(was)) == Decide(other.release, OldRelease(was)) == Ok(Upgrade)
      requires TrueRecord(was, versionOf) && !Answers(m, b, versionOf) && other.image != b.image
      modifies this
      ensures !disturbed && healthy ==>
        && RolledBack(m, was, b) && m.candidate == Some(b.image)
        && refused == Failed(FileSetHash) && Blocked(m, AtManaged(was), other)
    {
      ghost var before := m;
      refused := Done;
      var rolledBack;
      r, rolledBack := Ensure(b, was, versionOf);
      if !rolledBack || m.journal.Some? { return; }
      RolledBackIsReady(m, was, b, other);
      var again;
      refused, again := Ensure(other, AtManaged(was), versionOf);
    }

    /** The KeepCompatible branch: it checks the installed service and starts it. */
    method VerifyCurrent(b: Bundle) returns (r: Outcome)
      modifies this`disturbed
      ensures old(disturbed) ==> disturbed
      ensures r.Done? ==> Switched(m, b.image)
      ensures Switched(m, b.image) ==> (!disturbed ==> r.Done?) && (healthy ==> !r.Failed?)
    {
      if m.service.None? || m.live != Some(b.image) || m.service != Some(Managed) { return Failed(RecoveryIncomplete); }
      r := Check();
    }

    /** Attempts, failures and power losses in any number, until one attempt completes or rolls back. */
    method EnsureAcrossCrashes(b: Bundle, ghost was: Option<Old>, versionOf: Bytes -> Version, attempts: nat)
      returns (done: bool, rolledBack: bool)
      requires Resumable(m, was, b) && Acceptable(b, was)
      modifies this
      ensures if rolledBack then RollbackLeft(m, was, b) else Resumable(m, was, b)
      ensures done ==> !rolledBack && Finished(m, b)
      ensures healthy && versionOf(b.image) == b.release.version ==> !rolledBack
    {
      done, rolledBack := false, false;
      for attempt := 0 to attempts
        invariant Resumable(m, was, b) && !done && !rolledBack
      {
        var r;
        r, rolledBack := Ensure(b, was, versionOf);
        if rolledBack || r.Done? { return r.Done?, rolledBack; }
      }
    }

    /** The same with attempts after rollbacks: the old executable stays where the upgrade, the rollback or a
        completed rollback puts it, or it is gone. */
    method EnsureThroughRollbacks(b: Bundle, ghost was: Option<Old>, versionOf: Bytes -> Version, attempts: nat)
      returns (done: bool, ghost now: Option<Old>)
      requires Resumable(m, was, b) || AfterRollback(m, was, b)
      requires Acceptable(b, was) && Distinct(was, b, versionOf)
      modifies this
      ensures now in {was, AtManaged(was)}
      ensures Resumable(m, now, b) || AfterRollback(m, now, b)
      ensures done ==> Finished(m, b)
    {
      done, now := false, was;
      for attempt := 0 to attempts
        invariant now in {was, AtManaged(was)} && !done
        invariant Resumable(m, now, b) || AfterRollback(m, now, b)
      {
        var r, rolledBack;
        r, rolledBack := Ensure(b, now, versionOf);
        if r.Done? { return true, now; }
        if RolledBack(m, now, b) {
          RolledBackIsReady(m, now, b, b);
          now := AtManaged(now);
        }
      }
    }
  }

  /** The first check of `install_system_service` lets the run go on. */
  predicate Admitted(m: Machine) { m.service.Some? ==> m.release.Some? }

  /** An interrupted upgrade is always admitted again. An interrupted first installation is refused from
      the creation of the SCM entry until the release record is written. */
  lemma WhenResumeIsAdmitted(m: Machine, was: Option<Old>, b: Bundle)
    requires Resumable(m, was, b)
    ensures Admitted(m) <==> was.Some? || m.service.None? || m.release == Some(b.release)
    ensures was.None? && m.journal.Some? && m.journal.value.phase.ConfigSwitched? ==> !Admitted(m)
  {}

  function Rank(phase: UpgradePhase): nat {
    match phase
    case Staged => 3
    case OldStopped => 2
    case ConfigSwitched => 1
    case Healthy => 0
  }
}
