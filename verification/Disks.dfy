/** Durable state of the file-set transaction as a value: the managed files, each job's private
    journal and the reserved directory that holds its prepared payloads and its backups. The central
    notion is `Restores(d, goal)`: a completed recovery started from `d` leaves exactly `goal`. */
module Disks {
  import opened Outcomes
  import opened Text
  import opened Journals

  datatype File = File(snapshot: Snapshot, content: seq<byte>)

  /** A file below a registered root, named ignoring case. */
  datatype Target = Target(root: string, name: string)

  type Files = map<Target, File>

  /** `journal` is None between the creation of the job directory and the creation of its journal. */
  datatype JobFiles = JobFiles(journal: Option<Journal>, prepared: map<nat, File>, backups: map<nat, File>)

  datatype Disk = Disk(targets: Files, jobs: map<string, JobFiles>)

  function TargetAt(h: Header, k: nat): Target
    requires k < |h.entries|
  {
    Target(h.root, Lower(h.entries[k].path))
  }

  ghost function ManagedBy(h: Header): set<Target> {
    set k | 0 <= k < |h.entries| :: TargetAt(h, k)
  }

  predicate HasHeader(f: JobFiles) { f.journal.Some? && f.journal.value.Journal? }

  function State(f: JobFiles): Option<JournalState>
    requires HasHeader(f)
  {
    LastState(f.journal.value.lines, f.journal.value.tail)
  }

  /** Recovery rolls this job back. */
  predicate Active(f: JobFiles) {
    HasHeader(f) && State(f) in {Some(Committing), Some(RollingBack)}
  }

  function Head(f: JobFiles): Header
    requires HasHeader(f)
  {
    f.journal.value.header
  }

  /** What a rollback of the job leaves at its k-th target: it decides from `original` and from the
      existence of the backup alone. */
  function Settled(f: JobFiles, targets: Files, k: nat): Option<File>
    requires HasHeader(f) && k < |Head(f).entries|
  {
    var e := Head(f).entries[k];
    if e.original.None? then None
    else if e.transactionIndex in f.backups then Some(f.backups[e.transactionIndex])
    else Lookup(targets, TargetAt(Head(f), k))
  }

  ghost predicate JobRestores(f: JobFiles, targets: Files, goal: Files)
    requires HasHeader(f)
  {
    forall k :: 0 <= k < |Head(f).entries| ==> Lookup(goal, TargetAt(Head(f), k)) == Settled(f, targets, k)
  }

  ghost function ActiveJobs(d: Disk): map<string, JobFiles> {
    map id | id in d.jobs && Active(d.jobs[id]) :: d.jobs[id]
  }

  ghost predicate Managed(d: Disk, t: Target) {
    exists id :: id in ActiveJobs(d) && t in ManagedBy(Head(d.jobs[id]))
  }

  /** A completed recovery from `d` leaves exactly `goal`. */
  ghost predicate Restores(d: Disk, goal: Files) {
    && (forall id :: id in ActiveJobs(d) ==> JobRestores(d.jobs[id], d.targets, goal))
    && (forall t :: !Managed(d, t) ==> Lookup(goal, t) == Lookup(d.targets, t))
  }

  /** At most one unfinished job touches a given path. */
  ghost predicate Separated(d: Disk) {
    forall id, other :: id in ActiveJobs(d) && other in ActiveJobs(d) && id != other ==>
      ManagedBy(Head(d.jobs[id])) !! ManagedBy(Head(d.jobs[other]))
  }

  /** What holds of every disk the service can leave behind. */
  ghost predicate Sound(d: Disk) {
    && Separated(d)
    && (forall id :: id in d.jobs ==> SoundJob(d.jobs[id]))
  }

  /** Reserved files exist only beside a journal, and backups only once Committing was recorded. */
  ghost predicate SoundJob(f: JobFiles) {
    && (!HasHeader(f) ==> f.prepared == map[] && f.backups == map[])
    && (HasHeader(f) && State(f) in {None, Some(Prepared)} ==> f.backups == map[])
    && (Active(f) ==> DistinctPaths(Head(f).entries) && DistinctIndexes(Head(f).entries))
  }

  lemma SameFiles(a: Files, b: Files)
    requires forall t :: Lookup(a, t) == Lookup(b, t)
    ensures a == b
  {
    forall t ensures t in a <==> t in b { assert Lookup(a, t) == Lookup(b, t); }
    forall t | t in a ensures a[t] == b[t] { assert Lookup(a, t) == Lookup(b, t); }
  }

  /** Recovery has one possible result. */
  lemma RestoresIsUnique(d: Disk, a: Files, b: Files)
    requires Restores(d, a) && Restores(d, b)
    ensures a == b
  {
    forall t ensures Lookup(a, t) == Lookup(b, t) {
      if Managed(d, t) {
        var id :| id in ActiveJobs(d) && t in ManagedBy(Head(d.jobs[id]));
        var k :| 0 <= k < |Head(d.jobs[id]).entries| && t == TargetAt(Head(d.jobs[id]), k);
      }
    }
    SameFiles(a, b);
  }

  /** With no unfinished job the files are already what recovery would leave. */
  lemma SettledDisk(d: Disk, goal: Files)
    requires ActiveJobs(d) == map[] && Restores(d, goal)
    ensures d.targets == goal
  {
    forall t ensures Lookup(goal, t) == Lookup(d.targets, t) { assert !Managed(d, t); }
    SameFiles(d.targets, goal);
  }

  lemma DistinctTargets(h: Header, i: nat, j: nat)
    requires DistinctPaths(h.entries) && i < |h.entries| && j < |h.entries| && i != j
    ensures TargetAt(h, i) != TargetAt(h, j)
  {}

  ghost function SettledAt(d: Disk, t: Target): Option<File> {
    if Managed(d, t) then
      var id :| id in ActiveJobs(d) && t in ManagedBy(Head(d.jobs[id]));
      var k :| 0 <= k < |Head(d.jobs[id]).entries| && t == TargetAt(Head(d.jobs[id]), k);
      Settled(d.jobs[id], d.targets, k)
    else Lookup(d.targets, t)
  }

  /** The one map that recovery leaves. */
  ghost function Restored(d: Disk): (goal: Files)
    requires Sound(d)
    ensures Restores(d, goal)
  {
    var names := d.targets.Keys + set id, t | id in ActiveJobs(d) && t in ManagedBy(Head(d.jobs[id])) :: t;
    var goal := map t | t in names && SettledAt(d, t).Some? :: SettledAt(d, t).value;
    assert Restores(d, goal) by { RestoredIsRight(d, names, goal); }
    goal
  }

  lemma RestoredIsRight(d: Disk, names: set<Target>, goal: Files)
    requires Sound(d)
    requires names == d.targets.Keys + set id, t | id in ActiveJobs(d) && t in ManagedBy(Head(d.jobs[id])) :: t
    requires goal == map t | t in names && SettledAt(d, t).Some? :: SettledAt(d, t).value
    ensures Restores(d, goal)
  {
    forall t ensures Lookup(goal, t) == SettledAt(d, t) {
      if t !in names { assert !Managed(d, t); }
    }
    forall id, k | id in ActiveJobs(d) && 0 <= k < |Head(d.jobs[id]).entries|
      ensures Lookup(goal, TargetAt(Head(d.jobs[id]), k)) == Settled(d.jobs[id], d.targets, k)
    {
      var t := TargetAt(Head(d.jobs[id]), k);
      assert t in ManagedBy(Head(d.jobs[id])) && Managed(d, t);
      SettledAtIsSettled(d, id, k);
    }
  }

  /** Every sound disk has one result of recovery, whatever its jobs, and that is the map above. */
  lemma RecoveryHasOneResult(d: Disk, goal: Files)
    requires Sound(d)
    ensures Restores(d, goal) <==> goal == Restored(d)
  {
    if Restores(d, goal) { RestoresIsUnique(d, goal, Restored(d)); }
  }

  lemma SettledAtIsSettled(d: Disk, id: string, k: nat)
    requires Sound(d) && id in ActiveJobs(d) && k < |Head(d.jobs[id]).entries|
    ensures SettledAt(d, TargetAt(Head(d.jobs[id]), k)) == Settled(d.jobs[id], d.targets, k)
  {
    var t := TargetAt(Head(d.jobs[id]), k);
    assert t in ManagedBy(Head(d.jobs[id])) && Managed(d, t);
    forall j | 0 <= j < |Head(d.jobs[id]).entries| && j != k ensures TargetAt(Head(d.jobs[id]), j) != t {
      DistinctTargets(Head(d.jobs[id]), k, j);
    }
  }

  // ---- how a step changes what recovery leaves --------------------------------------------

  /** The step leaves the files and every unfinished job alone. */
  lemma UnrelatedStep(d: Disk, e: Disk, goal: Files)
    requires Restores(d, goal) && e.targets == d.targets && ActiveJobs(e) == ActiveJobs(d)
    ensures Restores(e, goal)
    ensures Separated(d) ==> Separated(e)
  {
    forall t ensures Managed(e, t) == Managed(d, t) {
      forall id | id in ActiveJobs(d) ensures d.jobs[id] == e.jobs[id] {
        assert ActiveJobs(d)[id] == ActiveJobs(e)[id];
      }
    }
    forall id | id in ActiveJobs(d) ensures d.jobs[id] == e.jobs[id] {
      assert ActiveJobs(d)[id] == ActiveJobs(e)[id];
    }
  }

  /** Every target that differs belongs to the header's paths. */
  ghost predicate ChangesOnly(h: Header, before: Files, after: Files) {
    forall t :: t !in ManagedBy(h) ==> Lookup(before, t) == Lookup(after, t)
  }

  /** The paths of `h` belong to no unfinished job except possibly `id`. */
  ghost predicate Owns(d: Disk, id: string, h: Header) {
    forall other :: other in ActiveJobs(d) && other != id ==> ManagedBy(h) !! ManagedBy(Head(d.jobs[other]))
  }

  lemma OwnPaths(d: Disk, id: string)
    requires Separated(d) && id in ActiveJobs(d)
    ensures Owns(d, id, Head(d.jobs[id]))
  {}

  /** A job's own step: it changes only its own paths and reserved files. Whether recovery is
      affected is decided by this job alone. */
  lemma OwnStep(d: Disk, id: string, f: JobFiles, targets: Files, goal: Files)
    requires id in d.jobs && HasHeader(d.jobs[id]) && HasHeader(f) && Head(f) == Head(d.jobs[id])
    requires Restores(d, goal) && Owns(d, id, Head(f)) && Separated(d)
    requires ChangesOnly(Head(f), d.targets, targets)
    requires Active(f) && JobRestores(f, targets, goal)
    ensures Restores(Disk(targets, d.jobs[id := f]), goal)
    ensures Separated(Disk(targets, d.jobs[id := f]))
  {
    var e := Disk(targets, d.jobs[id := f]);
    assert ActiveJobs(e) == ActiveJobs(d)[id := f];
    forall other | other in ActiveJobs(d) && other != id ensures JobRestores(e.jobs[other], targets, goal) {
      assert JobRestores(d.jobs[other], d.targets, goal);
      OtherJobUntouched(d, id, other, targets);
    }
    forall t ensures Managed(e, t) <==> Managed(d, t) || t in ManagedBy(Head(f)) {
      assert forall other :: other in ActiveJobs(e) <==> other == id || other in ActiveJobs(d);
    }
  }

  lemma OtherJobUntouched(d: Disk, id: string, other: string, targets: Files)
    requires id in d.jobs && HasHeader(d.jobs[id]) && other in ActiveJobs(d) && other != id
    requires Owns(d, id, Head(d.jobs[id])) && ChangesOnly(Head(d.jobs[id]), d.targets, targets)
    ensures forall k :: 0 <= k < |Head(d.jobs[other]).entries| ==>
              Settled(d.jobs[other], targets, k) == Settled(d.jobs[other], d.targets, k)
  {
    forall k | 0 <= k < |Head(d.jobs[other]).entries|
      ensures Settled(d.jobs[other], targets, k) == Settled(d.jobs[other], d.targets, k)
    {
      assert TargetAt(Head(d.jobs[other]), k) in ManagedBy(Head(d.jobs[other]));
    }
  }

  /** A job stops being unfinished: from then on its paths count as they are. */
  lemma Retire(d: Disk, id: string, e: Disk, goal: Files, after: Files)
    requires id in ActiveJobs(d) && Separated(d) && Restores(d, goal)
    requires e.targets == d.targets && ActiveJobs(e) == ActiveJobs(d) - {id}
    requires ChangesOnly(Head(d.jobs[id]), goal, after)
    requires forall k :: 0 <= k < |Head(d.jobs[id]).entries| ==>
               Lookup(after, TargetAt(Head(d.jobs[id]), k)) == Lookup(d.targets, TargetAt(Head(d.jobs[id]), k))
    ensures Restores(e, after) && Separated(e)
  {
    forall other | other in ActiveJobs(e) ensures e.jobs[other] == d.jobs[other] {
      assert ActiveJobs(e)[other] == ActiveJobs(d)[other];
    }
    forall other | other in ActiveJobs(e) ensures JobRestores(e.jobs[other], e.targets, after) {
      assert JobRestores(d.jobs[other], d.targets, goal);
      forall k | 0 <= k < |Head(e.jobs[other]).entries|
        ensures Lookup(after, TargetAt(Head(e.jobs[other]), k)) == Settled(e.jobs[other], e.targets, k)
      {
        assert TargetAt(Head(e.jobs[other]), k) in ManagedBy(Head(e.jobs[other]));
      }
    }
    forall t | !Managed(e, t) ensures Lookup(after, t) == Lookup(e.targets, t) {
      if t in ManagedBy(Head(d.jobs[id])) {
        var k :| 0 <= k < |Head(d.jobs[id]).entries| && t == TargetAt(Head(d.jobs[id]), k);
      } else {
        assert Managed(d, t) ==> Managed(e, t);
      }
    }
  }

  // ---- what a commit asks for -------------------------------------------------------------

  /** The file that the k-th entry asks for: its payload, or none for a removal. */
  function NewFile(h: Header, k: nat, payload: map<nat, File>): Option<File>
    requires k < |h.entries|
  {
    if h.entries[k].preparedIndex.Some? then Lookup(payload, h.entries[k].preparedIndex.value) else None
  }

  ghost predicate Updated(base: Files, result: Files, h: Header, payload: map<nat, File>) {
    && ChangesOnly(h, base, result)
    && forall k :: 0 <= k < |h.entries| ==> Lookup(result, TargetAt(h, k)) == NewFile(h, k, payload)
  }

  ghost function AppliedAt(base: Files, h: Header, payload: map<nat, File>, t: Target): Option<File> {
    if t in ManagedBy(h) then
      var k :| 0 <= k < |h.entries| && t == TargetAt(h, k);
      NewFile(h, k, payload)
    else Lookup(base, t)
  }

  /** The files after the whole set is applied to `base`: every listed path new, all others kept. */
  ghost function Applied(base: Files, h: Header, payload: map<nat, File>): (result: Files)
    requires DistinctPaths(h.entries)
    ensures Updated(base, result, h, payload)
  {
    var result := map t | t in base.Keys + ManagedBy(h) && AppliedAt(base, h, payload, t).Some?
                      :: AppliedAt(base, h, payload, t).value;
    assert Updated(base, result, h, payload) by {
      forall k | 0 <= k < |h.entries|
        ensures Lookup(result, TargetAt(h, k)) == NewFile(h, k, payload)
      {
        forall j | 0 <= j < |h.entries| && j != k ensures TargetAt(h, j) != TargetAt(h, k) {
          DistinctTargets(h, j, k);
        }
        assert TargetAt(h, k) in ManagedBy(h);
      }
    }
    result
  }

  // ---- the primitives ---------------------------------------------------------------------

  function BackedUp(d: Disk, id: string, index: nat, t: Target): Disk
    requires id in d.jobs && t in d.targets
  {
    var f := d.jobs[id];
    Disk(d.targets - {t}, d.jobs[id := f.(backups := f.backups[index := d.targets[t]])])
  }

  function Installed(d: Disk, id: string, index: nat, t: Target): Disk
    requires id in d.jobs && index in d.jobs[id].prepared
  {
    var f := d.jobs[id];
    Disk(d.targets[t := f.prepared[index]], d.jobs[id := f.(prepared := f.prepared - {index})])
  }

  /** ReplaceFileW with a backup name, or a plain move where no target exists: one step. */
  function Replaced(d: Disk, id: string, index: nat, t: Target): Disk
    requires id in d.jobs && index in d.jobs[id].prepared
  {
    Installed(if t in d.targets then BackedUp(d, id, index, t) else d, id, index, t)
  }

  function Deleted(d: Disk, t: Target): Disk { d.(targets := d.targets - {t}) }

  function BroughtBack(d: Disk, id: string, index: nat, t: Target): Disk
    requires id in d.jobs && index in d.jobs[id].backups
  {
    var f := d.jobs[id];
    Disk(d.targets[t := f.backups[index]], d.jobs[id := f.(backups := f.backups - {index})])
  }

  function WithJournal(d: Disk, id: string, j: Journal): Disk
    requires id in d.jobs
  {
    d.(jobs := d.jobs[id := d.jobs[id].(journal := Some(j))])
  }

  function Removed(d: Disk, id: string): Disk { d.(jobs := d.jobs - {id}) }

  /** Everything an interrupted `cleanup_job` can leave: part of the reserved files, and the journal
      gone only after the last of them. */
  ghost predicate PartlyCleaned(d: Disk, e: Disk, id: string) {
    && id in d.jobs
    && e.targets == d.targets
    && (|| e == Removed(d, id)
        || (&& id in e.jobs
            && e.jobs == d.jobs[id := e.jobs[id]]
            && (|| e.jobs[id] == JobFiles(None, map[], map[])
                || (&& e.jobs[id].journal == d.jobs[id].journal
                    && e.jobs[id].prepared.Items <= d.jobs[id].prepared.Items
                    && e.jobs[id].backups.Items <= d.jobs[id].backups.Items))))
  }

  /** The rollback of the k-th entry is complete. */
  ghost predicate EntryRolledBack(f: JobFiles, targets: Files, k: nat)
    requires HasHeader(f) && k < |Head(f).entries|
  {
    var e := Head(f).entries[k];
    if e.original.Some? then e.transactionIndex !in f.backups else TargetAt(Head(f), k) !in targets
  }

  ghost predicate RolledBack(d: Disk, id: string)
    requires id in d.jobs && HasHeader(d.jobs[id])
  {
    forall k :: 0 <= k < |Head(d.jobs[id]).entries| ==> EntryRolledBack(d.jobs[id], d.targets, k)
  }

  /** The k-th entry of an unfinished job whose steps keep what recovery leaves. */
  ghost predicate Step(d: Disk, id: string, k: nat, goal: Files) {
    && Sound(d) && Restores(d, goal)
    && id in d.jobs && Active(d.jobs[id]) && k < |Head(d.jobs[id]).entries|
  }

  /** The rename that retains the original before anything replaces it. */
  lemma BackUpKeepsRecovery(d: Disk, id: string, k: nat, goal: Files)
    requires Step(d, id, k, goal)
    requires var e := Head(d.jobs[id]).entries[k];
      e.original.Some? && e.transactionIndex !in d.jobs[id].backups && TargetAt(Head(d.jobs[id]), k) in d.targets
    ensures var h := Head(d.jobs[id]);
      var after := BackedUp(d, id, h.entries[k].transactionIndex, TargetAt(h, k));
      Sound(after) && Restores(after, goal)
  {
    var h := Head(d.jobs[id]);
    var t := TargetAt(h, k);
    var after := BackedUp(d, id, h.entries[k].transactionIndex, t);
    KeepsJob(d, id, k, after, goal);
  }

  /** An entry may be overwritten once its original is backed up, or if it had none. */
  lemma InstallKeepsRecovery(d: Disk, id: string, k: nat, index: nat, goal: Files)
    requires Step(d, id, k, goal) && index in d.jobs[id].prepared
    requires var e := Head(d.jobs[id]).entries[k]; e.original.Some? ==> e.transactionIndex in d.jobs[id].backups
    ensures var after := Installed(d, id, index, TargetAt(Head(d.jobs[id]), k));
      Sound(after) && Restores(after, goal)
  {
    KeepsJob(d, id, k, Installed(d, id, index, TargetAt(Head(d.jobs[id]), k)), goal);
  }

  lemma ReplaceKeepsRecovery(d: Disk, id: string, k: nat, goal: Files)
    requires Step(d, id, k, goal)
    requires var h := Head(d.jobs[id]);
      var e := h.entries[k];
      && e.transactionIndex in d.jobs[id].prepared
      && e.transactionIndex !in d.jobs[id].backups
      && (e.original.Some? <==> TargetAt(h, k) in d.targets)
    ensures var h := Head(d.jobs[id]);
      var after := Replaced(d, id, h.entries[k].transactionIndex, TargetAt(h, k));
      Sound(after) && Restores(after, goal)
  {
    var h := Head(d.jobs[id]);
    var index, t := h.entries[k].transactionIndex, TargetAt(h, k);
    if t in d.targets {
      BackUpKeepsRecovery(d, id, k, goal);
      InstallKeepsRecovery(BackedUp(d, id, index, t), id, k, index, goal);
    } else {
      InstallKeepsRecovery(d, id, k, index, goal);
    }
  }

  lemma DeleteKeepsRecovery(d: Disk, id: string, k: nat, goal: Files)
    requires Step(d, id, k, goal)
    requires var e := Head(d.jobs[id]).entries[k]; e.original.Some? ==> e.transactionIndex in d.jobs[id].backups
    ensures var after := Deleted(d, TargetAt(Head(d.jobs[id]), k));
      Sound(after) && Restores(after, goal)
  {
    var after := Deleted(d, TargetAt(Head(d.jobs[id]), k));
    assert after.jobs == d.jobs[id := d.jobs[id]];
    KeepsJob(d, id, k, after, goal);
  }

  lemma BringBackKeepsRecovery(d: Disk, id: string, k: nat, goal: Files)
    requires Step(d, id, k, goal)
    requires var e := Head(d.jobs[id]).entries[k]; e.original.Some? && e.transactionIndex in d.jobs[id].backups
    ensures var h := Head(d.jobs[id]);
      var after := BroughtBack(d, id, h.entries[k].transactionIndex, TargetAt(h, k));
      Sound(after) && Restores(after, goal) && EntryRolledBack(after.jobs[id], after.targets, k)
  {
    var h := Head(d.jobs[id]);
    KeepsJob(d, id, k, BroughtBack(d, id, h.entries[k].transactionIndex, TargetAt(h, k)), goal);
  }

  /** A step on the k-th entry keeps recovery if it keeps what the rollback leaves at that entry. */
  lemma KeepsJob(d: Disk, id: string, k: nat, after: Disk, goal: Files)
    requires Step(d, id, k, goal)
    requires id in after.jobs && after.jobs == d.jobs[id := after.jobs[id]]
    requires after.jobs[id].journal == d.jobs[id].journal
    requires var h := Head(d.jobs[id]);
      && after.targets - {TargetAt(h, k)} == d.targets - {TargetAt(h, k)}
      && after.jobs[id].backups - {h.entries[k].transactionIndex} == d.jobs[id].backups - {h.entries[k].transactionIndex}
      && Settled(after.jobs[id], after.targets, k) == Settled(d.jobs[id], d.targets, k)
    ensures Sound(after) && Restores(after, goal)
  {
    var h, f := Head(d.jobs[id]), after.jobs[id];
    assert TargetAt(h, k) in ManagedBy(h);
    MinusKeeps(after.targets, d.targets, TargetAt(h, k));
    MinusKeeps<nat, File>(f.backups, d.jobs[id].backups, h.entries[k].transactionIndex);
    assert JobRestores(d.jobs[id], d.targets, goal);
    forall j | 0 <= j < |h.entries| ensures Lookup(goal, TargetAt(h, j)) == Settled(f, after.targets, j) {
      if j != k { OtherEntryKept(d, id, k, after, j); }
    }
    OwnPaths(d, id);
    OwnStep(d, id, f, after.targets, goal);
    assert after == Disk(after.targets, d.jobs[id := f]);
  }

  lemma MinusKeeps<K, V>(a: map<K, V>, b: map<K, V>, x: K)
    requires a - {x} == b - {x}
    ensures forall k :: k != x ==> Lookup(a, k) == Lookup(b, k)
  {
    forall k | k != x ensures Lookup(a, k) == Lookup(b, k) {
      assert Lookup(a, k) == Lookup(a - {x}, k);
      assert Lookup(b, k) == Lookup(b - {x}, k);
    }
  }

  /** A step on one entry leaves what the rollback makes of another. */
  lemma OtherEntryKept(d: Disk, id: string, k: nat, after: Disk, j: nat)
    requires id in d.jobs && id in after.jobs && HasHeader(d.jobs[id]) && after.jobs[id].journal == d.jobs[id].journal
    requires k < |Head(d.jobs[id]).entries| && j < |Head(d.jobs[id]).entries| && j != k
    requires DistinctPaths(Head(d.jobs[id]).entries) && DistinctIndexes(Head(d.jobs[id]).entries)
    requires forall t :: t != TargetAt(Head(d.jobs[id]), k) ==> Lookup(after.targets, t) == Lookup(d.targets, t)
    requires forall n: nat :: n != Head(d.jobs[id]).entries[k].transactionIndex ==>
               Lookup(after.jobs[id].backups, n) == Lookup(d.jobs[id].backups, n)
    ensures Settled(after.jobs[id], after.targets, j) == Settled(d.jobs[id], d.targets, j)
  {
    var h := Head(d.jobs[id]);
    DistinctTargets(h, j, k);
    var n := h.entries[j].transactionIndex;
    assert Lookup(after.jobs[id].backups, n) == Lookup(d.jobs[id].backups, n);
  }

  lemma SubmapKeys(a: map<nat, File>, b: map<nat, File>)
    requires a.Items <= b.Items
    ensures forall n :: n in a ==> n in b && a[n] == b[n]
    ensures b == map[] ==> a == map[]
  {
    forall n | n in a ensures n in b && a[n] == b[n] { assert (n, a[n]) in a.Items; }
  }

  lemma PartialCleanupIsSound(d: Disk, e: Disk, id: string)
    requires Sound(d) && PartlyCleaned(d, e, id)
    ensures forall other :: other in e.jobs ==> SoundJob(e.jobs[other])
  {
    forall other | other in e.jobs ensures SoundJob(e.jobs[other]) {
      if other == id && e.jobs[id].journal.Some? {
        SubmapKeys(e.jobs[id].prepared, d.jobs[id].prepared);
        SubmapKeys(e.jobs[id].backups, d.jobs[id].backups);
      } else {
        assert other == id || e.jobs[other] == d.jobs[other];
      }
    }
  }

  /** The job still has its journal, but some reserved files are gone. */
  lemma PartialCleanupOfActiveJob(d: Disk, e: Disk, id: string, goal: Files)
    requires Sound(d) && Restores(d, goal) && PartlyCleaned(d, e, id)
    requires Active(d.jobs[id]) && RolledBack(d, id) && id in e.jobs && HasHeader(e.jobs[id])
    ensures Separated(e) && Restores(e, goal) && RolledBack(e, id)
  {
    var f, h := e.jobs[id], Head(d.jobs[id]);
    SubmapKeys(f.backups, d.jobs[id].backups);
    assert JobRestores(d.jobs[id], d.targets, goal);
    forall k | 0 <= k < |h.entries|
      ensures Settled(f, e.targets, k) == Settled(d.jobs[id], d.targets, k) && EntryRolledBack(f, e.targets, k)
    {
      assert EntryRolledBack(d.jobs[id], d.targets, k);
    }
    OwnPaths(d, id);
    OwnStep(d, id, f, e.targets, goal);
    assert e == Disk(e.targets, d.jobs[id := f]);
  }

  lemma CleanupAndActiveJobs(d: Disk, e: Disk, id: string)
    requires PartlyCleaned(d, e, id)
    ensures !Active(d.jobs[id]) ==> ActiveJobs(e) == ActiveJobs(d) && (id in e.jobs ==> !Active(e.jobs[id]))
    ensures id !in e.jobs || !HasHeader(e.jobs[id]) ==> ActiveJobs(e) == ActiveJobs(d) - {id}
    ensures id in e.jobs && HasHeader(e.jobs[id]) ==> HasHeader(d.jobs[id]) && e.jobs[id].journal == d.jobs[id].journal
  {
    assert forall other :: other != id ==> (other in e.jobs <==> other in d.jobs);
    assert forall other :: other in d.jobs && other != id ==> e.jobs[other] == d.jobs[other];
  }

  /** Cleaning up, however far it gets, never changes what recovery leaves, provided that a job which
      is still unfinished was rolled back completely. */
  lemma CleanupKeepsRecovery(d: Disk, e: Disk, id: string, goal: Files)
    requires Sound(d) && Restores(d, goal) && PartlyCleaned(d, e, id)
    requires Active(d.jobs[id]) ==> RolledBack(d, id)
    ensures Sound(e) && Restores(e, goal)
    ensures id in e.jobs && Active(e.jobs[id]) ==> RolledBack(e, id)
  {
    PartialCleanupIsSound(d, e, id);
    CleanupAndActiveJobs(d, e, id);
    if !Active(d.jobs[id]) {
      UnrelatedStep(d, e, goal);
    } else if id in e.jobs && HasHeader(e.jobs[id]) {
      PartialCleanupOfActiveJob(d, e, id, goal);
    } else {
      RolledBackTargets(d, id, goal);
      Retire(d, id, e, goal, goal);
    }
  }

  /** A completed rollback has put every path of the job where recovery leaves it. */
  lemma RolledBackTargets(d: Disk, id: string, goal: Files)
    requires Restores(d, goal) && id in ActiveJobs(d) && RolledBack(d, id)
    ensures forall k :: 0 <= k < |Head(d.jobs[id]).entries| ==>
              Lookup(goal, TargetAt(Head(d.jobs[id]), k)) == Lookup(d.targets, TargetAt(Head(d.jobs[id]), k))
  {
    assert JobRestores(d.jobs[id], d.targets, goal);
    forall k | 0 <= k < |Head(d.jobs[id]).entries|
      ensures Lookup(goal, TargetAt(Head(d.jobs[id]), k)) == Lookup(d.targets, TargetAt(Head(d.jobs[id]), k))
    {
      assert EntryRolledBack(d.jobs[id], d.targets, k);
    }
  }
}
