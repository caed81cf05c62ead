/** The start of the service after a power loss: file-set recovery, and the generation floors that its report
    of committed jobs raises. */
module ServiceStarts {
  import opened Outcomes
  import opened Text
  import opened JobIds
  import opened Journals
  import opened Disks
  import opened Transactions
  import opened FileSystems
  import opened FileSetJobs
  import opened FileSetPreparation
  import opened Generations
  import opened GenerationRuns

  ghost predicate DurablyCommitted(f: JobFiles) { HasHeader(f) && State(f) == Some(Committed) }

  /** The root's floor is what this job installed. */
  ghost predicate InstalledBy(jobs: map<string, JobFiles>, id: string, root: string, floor: Option<GenerationRecord>) {
    id in jobs && DurablyCommitted(jobs[id]) && NamesFloor(GenerationFromJobId(id), root, floor)
  }

  /** A floor moves only for a job whose Committed record was found, and then to that job's generation. */
  lemma FloorsMoveForInstalledJobs(floors: Floors, report: Recovery, jobs: map<string, JobFiles>, root: string)
    requires ReportsStates(report, jobs) && AcceptKeys(floors, KeysOf(report.committed)).Ok?
    ensures var floor := Lookup(AcceptKeys(floors, KeysOf(report.committed)).value, root);
      floor != Lookup(floors, root) ==> exists id :: InstalledBy(jobs, id, root, floor)
  {
    var keys := KeysOf(report.committed);
    AcceptKeysDecides(floors, keys);
    FloorComesFrom(floors, keys, root);
    if FloorAfter(floors, keys, root) != Lookup(floors, root) {
      var i :| 0 <= i < |keys| && NamesFloor(keys[i], root, FloorAfter(floors, keys, root));
      KeysOfAt(report.committed, i);
      assert report.committed[i] in report.committed;
      assert InstalledBy(jobs, report.committed[i], root, FloorAfter(floors, keys, root));
    }
  }

  /** The floor of every committed job's root is its generation or a later one. */
  lemma InstalledJobsAreBelow(floors: Floors, report: Recovery, jobs: map<string, JobFiles>, id: string)
    requires ReportsStates(report, jobs) && AcceptKeys(floors, KeysOf(report.committed)).Ok?
    requires id in jobs && DurablyCommitted(jobs[id]) && GenerationFromJobId(id).Some?
    ensures var key, after := GenerationFromJobId(id).value, AcceptKeys(floors, KeysOf(report.committed)).value;
      key.rootId in after && Follows(RecordOf(key), after[key.rootId])
  {
    assert id in report.committed;
    var i :| 0 <= i < |report.committed| && report.committed[i] == id;
    KeysOfAt(report.committed, i);
    AcceptedIsFollowed(floors, KeysOf(report.committed), i);
  }

  /** `recover_service_state`, as far as file sets and their generations go. Wherever it stops, recovery still
      leaves `goal`, and a floor on disk has moved only to the generation of a job that was durably committed;
      after success the floors cover every such job. */
  method StartService(fs: FileSystem, s: Service, ghost goal: Files) returns (r: Outcome, report: Recovery)
    requires Sound(fs.Contents()) && Restores(fs.Contents(), goal) && s.Valid() && !s.up
    modifies fs, s, s.store, s.store.file
    ensures Sound(fs.Contents()) && Restores(fs.Contents(), goal)
    ensures s.Valid() && s.commits == old(s.commits) && s.up == r.Done?
    ensures r.Done? ==> fs.targets == goal && fs.jobs == map[] && ReportsStates(report, old(fs.jobs))
    ensures forall root :: FloorExplained(old(fs.jobs), old(s.store.Persisted()).value, s.store.Persisted().value, root)
    ensures r.Done? ==> forall id :: id in old(fs.jobs) ==> FloorCovers(s.store.Persisted().value, id, old(fs.jobs)[id])
  {
    ghost var jobs, floors := fs.jobs, s.store.Persisted().value;
    report := Recovery([], [], []);
    r := s.Load();
    if !r.Done? { return; }
    r, report := RecoverIncomplete(fs, goal);
    if !r.Done? { return; }
    r := s.AcceptRecovered(report.committed);
    if AcceptKeys(floors, KeysOf(report.committed)).Ok? { AllExplained(floors, report, jobs); }
  }

  ghost predicate FloorExplained(jobs: map<string, JobFiles>, before: Floors, after: Floors, root: string) {
    Lookup(after, root) == Lookup(before, root) || exists id :: InstalledBy(jobs, id, root, Lookup(after, root))
  }

  ghost predicate FloorCovers(floors: Floors, id: string, f: JobFiles) {
    DurablyCommitted(f) && GenerationFromJobId(id).Some? ==>
      var key := GenerationFromJobId(id).value;
      key.rootId in floors && Follows(RecordOf(key), floors[key.rootId])
  }

  lemma AllExplained(floors: Floors, report: Recovery, jobs: map<string, JobFiles>)
    requires ReportsStates(report, jobs) && AcceptKeys(floors, KeysOf(report.committed)).Ok?
    ensures var after := AcceptKeys(floors, KeysOf(report.committed)).value;
      && (forall root :: FloorExplained(jobs, floors, after, root))
      && (forall id :: id in jobs ==> FloorCovers(after, id, jobs[id]))
  {
    var after := AcceptKeys(floors, KeysOf(report.committed)).value;
    forall root ensures FloorExplained(jobs, floors, after, root) {
      FloorsMoveForInstalledJobs(floors, report, jobs, root);
    }
    forall id | id in jobs ensures FloorCovers(after, id, jobs[id]) {
      if DurablyCommitted(jobs[id]) && GenerationFromJobId(id).Some? { InstalledJobsAreBelow(floors, report, jobs, id); }
    }
  }

  /** An update, any number of power losses and the start that follows. A floor that the start moves is the
      manifest's root's, it moves to the manifest's generation, and then the manifest is what is installed. */
  method UpdateAndStart(fs: FileSystem, s: Service, m: Verified, root: Root, staging: map<string, seq<byte>>,
                        sha256: seq<byte> -> string, boots: nat)
    returns (recovered: bool, r: Outcome)
    requires fs.jobs == map[] && m.Valid(root) && s.Valid() && !s.up
    modifies fs, s, s.store, s.store.file
    ensures s.Valid() && Sound(fs.Contents())
    ensures forall other :: Lookup(s.store.Persisted().value, other) != Lookup(old(s.store.Persisted()).value, other) ==>
      && MovedTo(s.store.Persisted().value, other, m, root)
      && ManifestApplied(old(fs.targets), fs.targets, m.fileSet, root.rootId, staging)
  {
    r := Done;
    var prepared, report;
    ghost var after, last;
    prepared, recovered, report, after, last := UpdateFiles(fs, m, root, staging, sha256, boots);
    if !recovered { return; }
    r := StartWith(s, report, last.jobs, m, root);
  }

  /** The start with a report on at most the one job of this manifest. */
  method StartWith(s: Service, report: Recovery, ghost jobs: map<string, JobFiles>, ghost m: Verified, ghost root: Root)
    returns (r: Outcome)
    requires s.Valid() && !s.up && m.Valid(root)
    requires ReportsStates(report, jobs) && jobs.Keys <= {JobIdOf(m, root)}
    modifies s, s.store, s.store.file
    ensures s.Valid()
    ensures forall other :: Lookup(s.store.Persisted().value, other) != Lookup(old(s.store.Persisted()).value, other) ==>
      MovedTo(s.store.Persisted().value, other, m, root) && report.committed != []
  {
    ghost var floors := s.store.Persisted().value;
    r := s.Start(report.committed);
    if AcceptKeys(floors, KeysOf(report.committed)).Ok? { OnlyThisFloor(floors, report, jobs, m, root); }
  }

  /** The floor of this root is the manifest's generation. */
  ghost predicate MovedTo(floors: Floors, other: string, m: Verified, root: Root) {
    other == root.rootId && Lookup(floors, other) == Some(GenerationRecord(m.fileSet.generation, m.digest))
  }

  lemma OnlyThisFloor(floors: Floors, report: Recovery, jobs: map<string, JobFiles>, m: Verified, root: Root)
    requires ReportsStates(report, jobs) && jobs.Keys <= {JobIdOf(m, root)} && m.Valid(root)
    requires AcceptKeys(floors, KeysOf(report.committed)).Ok?
    ensures var after := AcceptKeys(floors, KeysOf(report.committed)).value;
      forall other :: Lookup(after, other) != Lookup(floors, other) ==> MovedTo(after, other, m, root) && report.committed != []
  {
    var after := AcceptKeys(floors, KeysOf(report.committed)).value;
    JobIdReadsBack(JobKey(root.rootId, m.fileSet.generation, m.digest));
    forall other | Lookup(after, other) != Lookup(floors, other)
      ensures MovedTo(after, other, m, root) && report.committed != []
    {
      FloorsMoveForInstalledJobs(floors, report, jobs, other);
      var id :| InstalledBy(jobs, id, other, Lookup(after, other));
      assert id in jobs.Keys && id == JobIdOf(m, root) && id in report.committed;
    }
  }
}
