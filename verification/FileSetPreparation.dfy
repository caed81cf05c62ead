/** `prepare_file_set`: from a verified manifest to a journaled job with its payloads in place. */
module FileSetPreparation {
  import opened Outcomes
  import opened Text
  import opened JobIds
  import opened FileSets
  import opened Journals
  import opened Disks
  import opened Transactions
  import opened FileSystems
  import opened FileSetJobs

  datatype Root = Root(rootId: string, productId: string)

  /** A manifest whose signature and contents were verified, with the digest of its bytes. */
  datatype Verified = Verified(fileSet: FileSet, digest: seq<byte>) {
    ghost predicate Valid(root: Root) {
      && ValidFileSet(fileSet, fileSet.productId)
      && fileSet.generation <= U64_MAX && |digest| == DIGEST_BYTES
      && ValidIdentifier(root.rootId)
    }
  }

  function JobIdOf(m: Verified, root: Root): string {
    FormatJobId(JobKey(root.rootId, m.fileSet.generation, m.digest))
  }

  /** What `prepare_job_contents` writes for the k-th path of the manifest, given its snapshot. */
  function EntryFor(fs: FileSet, k: nat, original: Option<Snapshot>): Entry
    requires k < |AllPaths(fs)|
  {
    if k < |fs.files| then Entry(Replace, original, fs.files[k].path, Some(k), k)
    else Entry(Remove, original, fs.removeFiles[k - |fs.files|], None, k)
  }

  ghost predicate BuiltFrom(entries: seq<Entry>, fs: FileSet) {
    && |entries| == |AllPaths(fs)|
    && forall k :: 0 <= k < |entries| ==> entries[k] == EntryFor(fs, k, entries[k].original)
  }

  /** A header built from any verified manifest passes the reader's validation, and its replacement
      entries use one number for payload and backup. */
  lemma BuiltHeaderIsValid(m: Verified, root: Root, h: Header)
    requires m.Valid(root) && BuiltFrom(h.entries, m.fileSet)
    requires h.schema == JOURNAL_SCHEMA && h.jobId == JobIdOf(m, root) && h.manifestDigest == EncodeHex(m.digest)
    ensures ValidHeader(h) && IndexesAgree(h)
  {
    JobIdReadsBack(JobKey(root.rootId, m.fileSet.generation, m.digest));
    HexBytesOfEncodeHex(m.digest);
    BuiltEntriesAreValid(m.fileSet, h.entries);
    IndexesOfBuilt(m.fileSet, h);
  }

  lemma IndexesOfBuilt(fs: FileSet, h: Header)
    requires BuiltFrom(h.entries, fs)
    ensures IndexesAgree(h)
  {}

  lemma BuiltEntriesAreValid(fs: FileSet, entries: seq<Entry>)
    requires BuiltFrom(entries, fs)
    requires AllValid(AllPaths(fs), |AllPaths(fs)|) && DistinctIgnoringCase(AllPaths(fs), |AllPaths(fs)|)
    ensures ValidEntries(entries)
  {
    var paths := AllPaths(fs);
    forall k | 0 <= k < |entries| ensures entries[k].path == paths[k] && WellFormedEntry(entries[k]) {
      assert entries[k] == EntryFor(fs, k, entries[k].original);
    }
  }

  /** `inspect_target` for every path, replacements first. The `u32` conversions cannot fail within
      the manifest's entry bound. */
  method BuildEntries(fs: FileSystem, m: Verified, root: Root) returns (r: Outcome, entries: seq<Entry>)
    requires m.Valid(root)
    modifies fs`faults, fs`lastError
    ensures fs.Grows()
    ensures fs.faults == old(fs.faults) ==> r.Done?
    ensures r.Done? ==> BuiltFrom(entries, m.fileSet)
    ensures r.Done? ==> forall k :: 0 <= k < |entries| ==>
              entries[k].original == SnapshotOf(fs.targets, Target(root.rootId, Lower(entries[k].path)))
  {
    entries := [];
    var files, removals := m.fileSet.files, m.fileSet.removeFiles;
    var count := |files| + |removals|;
    for k := 0 to count
      invariant fs.Grows()
      invariant |entries| == k
      invariant forall j :: 0 <= j < k ==> entries[j] == EntryFor(m.fileSet, j, entries[j].original)
      invariant forall j :: 0 <= j < k ==>
                  entries[j].original == SnapshotOf(fs.targets, Target(root.rootId, Lower(entries[j].path)))
    {
      var path := if k < |files| then files[k].path else removals[k - |files|];
      var original;
      r, original := fs.InspectTarget(Target(root.rootId, Lower(path)));
      if !r.Done? { return; }
      entries := entries + [EntryFor(m.fileSet, k, original)];
    }
    r := Done;
  }

  /** A payload is accepted only with the signed size and SHA-256; `sha256` stands for the hash. */
  predicate PayloadMatches(content: seq<byte>, expected: FileEntry, sha256: seq<byte> -> string) {
    |content| == expected.size && sha256(content) == expected.sha256
  }

  /** The staging directory holds every file of the manifest with its signed size and hash. */
  ghost predicate StagingComplete(staging: map<string, seq<byte>>, files: seq<FileEntry>, sha256: seq<byte> -> string) {
    forall k :: 0 <= k < |files| ==>
      && files[k].path in staging
      && |staging[files[k].path]| == files[k].size && sha256(staging[files[k].path]) == files[k].sha256
  }

  /** The prepared payloads are the staged files, in the order of the manifest. */
  ghost predicate Carries(prepared: map<nat, File>, files: seq<FileEntry>, staging: map<string, seq<byte>>) {
    forall k :: 0 <= k < |files| ==> k in prepared && files[k].path in staging && prepared[k].content == staging[files[k].path]
  }

  /** What a manifest's update is, on its own paths: every file it names holds its own staged bytes, every path
      it removes is gone, and every other file is as before. */
  ghost predicate ManifestApplied(before: Files, after: Files, fs: FileSet, rootId: string, staging: map<string, seq<byte>>) {
    && (forall k :: 0 <= k < |fs.files| ==> FileIsNew(after, rootId, fs.files[k].path, staging))
    && (forall k :: 0 <= k < |fs.removeFiles| ==> Target(rootId, Lower(fs.removeFiles[k])) !in after)
    && (forall t :: !Names(fs, rootId, t) ==> Lookup(after, t) == Lookup(before, t))
  }

  ghost predicate FileIsNew(after: Files, rootId: string, path: string, staging: map<string, seq<byte>>) {
    var t := Target(rootId, Lower(path));
    path in staging && t in after && after[t].content == staging[path]
  }

  /** The manifest names this target. */
  ghost predicate Names(fs: FileSet, rootId: string, t: Target) {
    || (exists k :: 0 <= k < |fs.files| && t == Target(rootId, Lower(fs.files[k].path)))
    || (exists k :: 0 <= k < |fs.removeFiles| && t == Target(rootId, Lower(fs.removeFiles[k])))
  }

  /** Applying a job that was built from a manifest is the manifest's update. */
  lemma AppliedIsTheManifest(base: Files, h: Header, fs: FileSet, rootId: string, payload: map<nat, File>,
                             staging: map<string, seq<byte>>)
    requires DistinctPaths(h.entries) && BuiltFrom(h.entries, fs) && h.root == rootId && Carries(payload, fs.files, staging)
    ensures ManifestApplied(base, Applied(base, h, payload), fs, rootId, staging)
  {
    var after := Applied(base, h, payload);
    forall k | 0 <= k < |fs.files| ensures FileIsNew(after, rootId, fs.files[k].path, staging) {
      assert h.entries[k] == EntryFor(fs, k, h.entries[k].original);
      assert Lookup(after, TargetAt(h, k)) == NewFile(h, k, payload);
    }
    forall k | 0 <= k < |fs.removeFiles| ensures Target(rootId, Lower(fs.removeFiles[k])) !in after {
      var j := |fs.files| + k;
      assert h.entries[j] == EntryFor(fs, j, h.entries[j].original);
      assert Lookup(after, TargetAt(h, j)) == NewFile(h, j, payload);
    }
    forall t | !Names(fs, rootId, t) ensures Lookup(after, t) == Lookup(base, t) {
      NamesAreManaged(h, fs, rootId, t);
    }
  }

  lemma NamesAreManaged(h: Header, fs: FileSet, rootId: string, t: Target)
    requires BuiltFrom(h.entries, fs) && h.root == rootId
    ensures t in ManagedBy(h) ==> Names(fs, rootId, t)
  {
    if t in ManagedBy(h) {
      var j :| 0 <= j < |h.entries| && t == TargetAt(h, j);
      assert h.entries[j] == EntryFor(fs, j, h.entries[j].original);
      if j >= |fs.files| { assert t == Target(rootId, Lower(fs.removeFiles[j - |fs.files|])); }
    }
  }

  /** The commit of the job has not begun. */
  ghost predicate NotStarted(f: JobFiles) { HasHeader(f) ==> State(f) == None || State(f) == Some(Prepared) }

  /** Nothing that prepare does matters to recovery. */
  ghost predicate Harmless(d: Disk, e: Disk, id: string, goal: Files) {
    && Sound(e) && Restores(e, goal)
    && e.targets == d.targets && e.jobs - {id} == d.jobs - {id}
    && (id in e.jobs ==> NotStarted(e.jobs[id]) && e.jobs[id].backups == map[])
  }

  lemma PrepareStep(d: Disk, e: Disk, id: string, goal: Files)
    requires Sound(d) && Restores(d, goal) && (id in d.jobs ==> !Active(d.jobs[id]))
    requires id in e.jobs && NotStarted(e.jobs[id]) && SoundJob(e.jobs[id]) && e.jobs[id].backups == map[]
    requires e.targets == d.targets && e.jobs == d.jobs[id := e.jobs[id]]
    ensures Harmless(d, e, id, goal)
  {
    IdleWriteKeepsRecovery(d, e, id, goal);
  }

  method WriteJournal(fs: FileSystem, h: Header, ghost goal: Files) returns (r: Outcome)
    requires Sound(fs.Contents()) && Restores(fs.Contents(), goal) && ValidHeader(h) && IndexesAgree(h)
    requires h.jobId in fs.jobs && fs.jobs[h.jobId] == JobFiles(None, map[], map[])
    modifies fs
    ensures fs.Grows()
    ensures fs.faults == old(fs.faults) ==> r.Done?
    ensures Harmless(old(fs.Contents()), fs.Contents(), h.jobId, goal) && h.jobId in fs.jobs
    ensures fs.wholeRecords ==> RestartableJob(h.jobId, fs.jobs[h.jobId])
    ensures r.Done? ==> IsPrepared(fs.Contents(), h) && fs.jobs[h.jobId].prepared == map[]
  {
    ghost var d := fs.Contents();
    r := fs.WriteNewJournal(h.jobId, h);
    assert States([Record(Prepared)]) == [Prepared];
    assert History([Record(Prepared)], Clean) == [Prepared];
    assert d.jobs == d.jobs[h.jobId := d.jobs[h.jobId]];
    PrepareStep(d, fs.Contents(), h.jobId, goal);
  }

  /** The first `n` payloads are in place, and no other. */
  ghost predicate Placed(prepared: map<nat, File>, contents: seq<seq<byte>>, n: nat)
    requires n <= |contents|
  {
    && (forall j: nat :: j in prepared <==> j < n)
    && (forall j: nat :: j < n ==> prepared[j].content == contents[j])
  }

  lemma PlaceNext(a: map<nat, File>, b: map<nat, File>, contents: seq<seq<byte>>, n: nat)
    requires n < |contents| && Placed(a, contents, n) && b - {n} == a - {n}
    requires n in b && b[n].content == contents[n]
    ensures Placed(b, contents, n + 1)
  {
    MinusKeeps<nat, File>(b, a, n);
    forall j: nat | j != n
      ensures j in b <==> j in a
      ensures j in a ==> b[j] == a[j]
    {
      assert Lookup<nat, File>(b, j) == Lookup<nat, File>(a, j);
    }
  }

  method PlacePayload(fs: FileSystem, h: Header, index: nat, content: seq<byte>, ghost goal: Files) returns (r: Outcome)
    requires Sound(fs.Contents()) && Restores(fs.Contents(), goal) && IsPrepared(fs.Contents(), h)
    requires fs.jobs[h.jobId].backups == map[]
    modifies fs
    ensures fs.Grows()
    ensures fs.faults == old(fs.faults) && index !in old(fs.jobs)[h.jobId].prepared ==> r.Done?
    ensures Harmless(old(fs.Contents()), fs.Contents(), h.jobId, goal) && IsPrepared(fs.Contents(), h)
    ensures fs.jobs[h.jobId].prepared - {index} == old(fs.jobs)[h.jobId].prepared - {index}
    ensures r.Done? ==> index in fs.jobs[h.jobId].prepared && fs.jobs[h.jobId].prepared[index].content == content
  {
    ghost var d := fs.Contents();
    r := fs.PrepareTargetPayload(h.jobId, index, content);
    PrepareStep(d, fs.Contents(), h.jobId, goal);
  }

  method PlacePayloads(fs: FileSystem, h: Header, contents: seq<seq<byte>>, ghost goal: Files) returns (r: Outcome)
    requires Sound(fs.Contents()) && Restores(fs.Contents(), goal) && IsPrepared(fs.Contents(), h)
    requires fs.jobs[h.jobId].prepared == map[] && fs.jobs[h.jobId].backups == map[]
    modifies fs
    ensures fs.Grows()
    ensures fs.faults == old(fs.faults) ==> r.Done?
    ensures Harmless(old(fs.Contents()), fs.Contents(), h.jobId, goal) && IsPrepared(fs.Contents(), h)
    ensures r.Done? ==> Placed(fs.jobs[h.jobId].prepared, contents, |contents|)
  {
    ghost var d := fs.Contents();
    for k := 0 to |contents|
      invariant fs.Grows()
      invariant Harmless(d, fs.Contents(), h.jobId, goal) && IsPrepared(fs.Contents(), h)
      invariant Placed(fs.jobs[h.jobId].prepared, contents, k)
    {
      ghost var before := fs.jobs[h.jobId].prepared;
      r := PlacePayload(fs, h, k, contents[k], goal);
      if !r.Done? { return; }
      PlaceNext(before, fs.jobs[h.jobId].prepared, contents, k);
    }
    r := Done;
  }

  /** `prepare_file_set`. It never touches a target and never matters to recovery, whatever happens.
      Without faults it succeeds exactly if the job is new, the product is the root's and the staging directory
      is complete. If it succeeds the job is prepared: its header passes the reader's checks, every payload has its
      signed size and hash, and the snapshots are those of the targets. With whole-record writes the
      journal it leaves can always be read. */
  method PrepareFileSet(fs: FileSystem, m: Verified, root: Root, staging: map<string, seq<byte>>,
                        sha256: seq<byte> -> string, ghost goal: Files)
    returns (r: Outcome, h: Header)
    requires Sound(fs.Contents()) && Restores(fs.Contents(), goal) && m.Valid(root)
    modifies fs
    ensures fs.Grows()
    ensures var id := JobIdOf(m, root);
      && Sound(fs.Contents()) && Restores(fs.Contents(), goal)
      && fs.targets == old(fs.targets) && fs.jobs - {id} == old(fs.jobs) - {id}
      && (id in old(fs.jobs) || m.fileSet.productId != root.productId ==> !r.Done? && fs.jobs == old(fs.jobs))
      && (fs.wholeRecords && id in fs.jobs && id !in old(fs.jobs) ==> RestartableJob(id, fs.jobs[id]))
      && (id in fs.jobs && id !in old(fs.jobs) ==> NotStarted(fs.jobs[id]))
    ensures !StagingComplete(staging, m.fileSet.files, sha256) ==> !r.Done?
    ensures fs.faults == old(fs.faults) ==>
      && r == (if m.fileSet.productId != root.productId then Failed(ProductMismatch)
               else if JobIdOf(m, root) in old(fs.jobs) then Failed(TransactionConflict)
               else if !StagingComplete(staging, m.fileSet.files, sha256) then Failed(StagingInvalid) else Done)
      && (!r.Done? ==> fs.jobs == old(fs.jobs))
    ensures r.Done? ==>
      && IsPrepared(fs.Contents(), h) && h.jobId == JobIdOf(m, root) && h.root == root.rootId
      && BuiltFrom(h.entries, m.fileSet) && SnapshotsMatch(h, fs.targets)
      && Carries(fs.jobs[h.jobId].prepared, m.fileSet.files, staging)
      && PayloadComplete(h, fs.jobs[h.jobId].prepared)
      && ManifestApplied(fs.targets, Applied(fs.targets, h, fs.jobs[h.jobId].prepared), m.fileSet, root.rootId, staging)
  {
    var id := JobIdOf(m, root);
    h := Header([], 0, id, "", root.rootId, JOURNAL_SCHEMA);
    r := fs.Check();
    if !r.Done? { return; }
    if m.fileSet.productId != root.productId { return Failed(ProductMismatch), h; }
    r := OpenJob(fs, id, goal);
    if !r.Done? { return; }
    r, h := PrepareContents(fs, m, root, staging, sha256, goal);
    if r.Done? { AppliedIsTheManifest(fs.targets, h, m.fileSet, root.rootId, fs.jobs[id].prepared, staging); }
    if r.Failed? {
      var cleaned := CleanUpFailed(fs, id, goal);
      if fs.faults == old(fs.faults) { BackToJobs(fs.jobs, old(fs.jobs), id); }
      if cleaned.PowerLoss? { r := PowerLoss; }
    }
  }

  lemma BackToJobs(now: map<string, JobFiles>, before: map<string, JobFiles>, id: string)
    requires id !in now && id !in before && now - {id} == before - {id}
    ensures now == before
  {
    assert now - {id} == now && before - {id} == before;
  }

  /** The job directory is created if there is room for the payloads. */
  method OpenJob(fs: FileSystem, id: string, ghost goal: Files) returns (r: Outcome)
    requires Sound(fs.Contents()) && Restores(fs.Contents(), goal)
    modifies fs
    ensures fs.Grows()
    ensures id in old(fs.jobs) ==> !r.Done? && fs.Contents() == old(fs.Contents())
    ensures fs.faults == old(fs.faults) ==> r == if id in old(fs.jobs) then Failed(TransactionConflict) else Done
    ensures Sound(fs.Contents()) && Restores(fs.Contents(), goal)
    ensures fs.targets == old(fs.targets) && fs.jobs - {id} == old(fs.jobs) - {id}
    ensures id in fs.jobs && id !in old(fs.jobs) ==> fs.jobs[id] == JobFiles(None, map[], map[])
    ensures r.Done? ==> id in fs.jobs && id !in old(fs.jobs)
  {
    ghost var d := fs.Contents();
    r := fs.Check();  // free space on both volumes
    if !r.Done? { return; }
    r := fs.CreateJobDirectory(id);
    assert d.jobs[id := JobFiles(None, map[], map[])] - {id} == d.jobs - {id};
    if id !in d.jobs && id in fs.jobs { PrepareStep(d, fs.Contents(), id, goal); }
  }

  /** The best-effort cleanup of a job whose preparation failed. */
  method CleanUpFailed(fs: FileSystem, id: string, ghost goal: Files) returns (r: Outcome)
    requires Sound(fs.Contents()) && Restores(fs.Contents(), goal) && id in fs.jobs && NotStarted(fs.jobs[id])
    modifies fs
    ensures fs.Grows()
    ensures Sound(fs.Contents()) && Restores(fs.Contents(), goal)
    ensures fs.targets == old(fs.targets) && fs.jobs - {id} == old(fs.jobs) - {id}
    ensures id in fs.jobs ==> NotStarted(fs.jobs[id])
    ensures fs.faults == old(fs.faults) ==> r.Done? && id !in fs.jobs
    ensures id in fs.jobs && RestartableJob(id, old(fs.jobs)[id]) ==> RestartableJob(id, fs.jobs[id])
  {
    ghost var failed := fs.Contents();
    r := fs.CleanupJob(id);
    CleanupKeepsRecovery(failed, fs.Contents(), id, goal);
    CleanupOnlyJob(failed, fs.Contents(), id, Header([], 0, "", "", "", 0));
  }

  lemma EntriesMatch(h: Header, root: Root, targets: Files)
    requires h.root == root.rootId
    requires forall k :: 0 <= k < |h.entries| ==>
               h.entries[k].original == SnapshotOf(targets, Target(root.rootId, Lower(h.entries[k].path)))
    ensures SnapshotsMatch(h, targets)
  {
    assert forall k :: 0 <= k < |h.entries| ==> SnapshotMatches(h, targets, k);
  }

  lemma PlacedPayloads(h: Header, fs: FileSet, contents: seq<seq<byte>>, prepared: map<nat, File>, staging: map<string, seq<byte>>)
    requires BuiltFrom(h.entries, fs) && |contents| == |fs.files| && Placed(prepared, contents, |contents|)
    requires forall k :: 0 <= k < |contents| ==> fs.files[k].path in staging && contents[k] == staging[fs.files[k].path]
    ensures Carries(prepared, fs.files, staging) && PayloadComplete(h, prepared)
  {}

  /** The first loop of `prepare_job_contents`: every payload is copied and checked. */
  method ReadStaging(staging: map<string, seq<byte>>, files: seq<FileEntry>, sha256: seq<byte> -> string)
    returns (r: Outcome, contents: seq<seq<byte>>)
    ensures r == if StagingComplete(staging, files, sha256) then Done else Failed(StagingInvalid)
    ensures r.Done? ==>
      |contents| == |files| && forall k :: 0 <= k < |files| ==> files[k].path in staging && contents[k] == staging[files[k].path]
  {
    contents := [];
    for k := 0 to |files|
      invariant |contents| == k
      invariant forall j :: 0 <= j < k ==> files[j].path in staging && contents[j] == staging[files[j].path]
      invariant forall j :: 0 <= j < k ==> PayloadMatches(contents[j], files[j], sha256)
    {
      if files[k].path !in staging || !PayloadMatches(staging[files[k].path], files[k], sha256) {
        return Failed(StagingInvalid), contents;
      }
      contents := contents + [staging[files[k].path]];
    }
    r := Done;
  }

  /** `prepare_job_contents`. */
  method PrepareContents(fs: FileSystem, m: Verified, root: Root, staging: map<string, seq<byte>>,
                         sha256: seq<byte> -> string, ghost goal: Files)
    returns (r: Outcome, h: Header)
    requires Sound(fs.Contents()) && Restores(fs.Contents(), goal) && m.Valid(root)
    requires JobIdOf(m, root) in fs.jobs && fs.jobs[JobIdOf(m, root)] == JobFiles(None, map[], map[])
    modifies fs
    ensures fs.Grows()
    ensures Harmless(old(fs.Contents()), fs.Contents(), JobIdOf(m, root), goal) && JobIdOf(m, root) in fs.jobs
    ensures fs.wholeRecords ==> RestartableJob(JobIdOf(m, root), fs.jobs[JobIdOf(m, root)])
    ensures !StagingComplete(staging, m.fileSet.files, sha256) ==> r == Failed(StagingInvalid)
    ensures fs.faults == old(fs.faults) && StagingComplete(staging, m.fileSet.files, sha256) ==> r.Done?
    ensures r.Done? ==>
      && IsPrepared(fs.Contents(), h) && h.jobId == JobIdOf(m, root) && h.root == root.rootId
      && BuiltFrom(h.entries, m.fileSet) && SnapshotsMatch(h, fs.targets)
      && Carries(fs.jobs[h.jobId].prepared, m.fileSet.files, staging)
      && PayloadComplete(h, fs.jobs[h.jobId].prepared)
  {
    var id := JobIdOf(m, root);
    ghost var d := fs.Contents();
    h := Header([], 0, id, "", root.rootId, JOURNAL_SCHEMA);
    assert d.jobs == d.jobs[id := d.jobs[id]];
    var contents;
    r, contents := ReadStaging(staging, m.fileSet.files, sha256);
    if !r.Done? { return; }
    var entries;
    r, entries := BuildEntries(fs, m, root);
    if !r.Done? { return; }
    h := Header(entries, m.fileSet.generation, id, EncodeHex(m.digest), root.rootId, JOURNAL_SCHEMA);
    BuiltHeaderIsValid(m, root, h);
    r := WriteJournal(fs, h, goal);
    if !r.Done? { return; }
    r := PlacePayloads(fs, h, contents, goal);
    EntriesMatch(h, root, fs.targets);
    if r.Done? { PlacedPayloads(h, m.fileSet, contents, fs.jobs[id].prepared, staging); }
  }

  // ---- the whole life of an update --------------------------------------------------------

  /** Prepare, commit and then recover after any number of power losses, on a disk with no unfinished
      job. At every stop a completed recovery would leave exactly the old files or exactly the manifest's
      update of them, the update only if the job was prepared with its signed payloads. Once a recovery
      completes they are there, and its report is about `last`, the disk that it found: a job reported as
      committed was installed, and one reported as rolled back was not. */
  method UpdateFiles(fs: FileSystem, m: Verified, root: Root, staging: map<string, seq<byte>>,
                     sha256: seq<byte> -> string, boots: nat)
    returns (prepared: bool, done: bool, report: Recovery, ghost after: Files, ghost last: Disk)
    requires fs.jobs == map[] && m.Valid(root)
    modifies fs
    ensures prepared ==>
      ManifestApplied(old(fs.targets), after, m.fileSet, root.rootId, staging) && StagingComplete(staging, m.fileSet.files, sha256)
    ensures done ==> fs.jobs == map[] && (fs.targets == old(fs.targets) || (prepared && fs.targets == after))
    ensures Sound(fs.Contents())
    ensures Restores(fs.Contents(), old(fs.targets)) || (prepared && Restores(fs.Contents(), after))
    ensures done ==> Restores(last, fs.targets) && ReportsStates(report, last.jobs) && last.jobs.Keys <= {JobIdOf(m, root)}
    ensures done && report.committed != [] ==> prepared && fs.targets == after
    ensures done && report.rolledBack != [] ==> prepared && fs.targets == old(fs.targets)
    ensures done && JobIdOf(m, root) in last.jobs && last.jobs[JobIdOf(m, root)].journal.Some? ==>
      fs.targets == if JobIdOf(m, root) in report.committed then after else old(fs.targets)
    ensures fs.wholeRecords ==> Restartable(fs.Contents())
  {
    ghost var before, id := fs.targets, JobIdOf(m, root);
    assert Restores(fs.Contents(), before);
    var r, h;
    r, h := PrepareFileSet(fs, m, root, staging, sha256, before);
    prepared, after := r.Done?, before;
    assert OtherJobsKept(Disk(before, map[]), fs.Contents(), id);
    NoOtherJobs(fs.Contents(), id);
    if prepared {
      after := Applied(before, h, fs.jobs[id].prepared);
      var commit := CommitFileSet(fs, h, before);
      NoOtherJobs(fs.Contents(), id);
    }
    assert VerdictDecides(fs.Contents(), id, before, after, prepared);
    done, report, last := FinishRecovery(fs, id, before, after, prepared, boots);
  }

  /** Recovery leaves the old or the new files, the new ones if the job is committed and the old ones if it
      has a journal that says otherwise. */
  ghost predicate VerdictDecides(d: Disk, id: string, before: Files, after: Files, prepared: bool) {
    && Sound(d)
    && (Restores(d, before) || (prepared && Restores(d, after)))
    && (id in d.jobs && HasHeader(d.jobs[id]) && State(d.jobs[id]) == Some(Committed) ==> prepared && Restores(d, after))
    && (id in d.jobs && HasHeader(d.jobs[id]) && State(d.jobs[id]) != Some(Committed) ==> Restores(d, before))
    && (!prepared && id in d.jobs ==> NotStarted(d.jobs[id]))
  }

  /** The starts after a commit, until one of them has recovered. */
  method FinishRecovery(fs: FileSystem, ghost id: string, ghost before: Files, ghost after: Files, ghost prepared: bool, boots: nat)
    returns (done: bool, report: Recovery, ghost last: Disk)
    requires VerdictDecides(fs.Contents(), id, before, after, prepared) && fs.jobs.Keys <= {id}
    modifies fs
    ensures Sound(fs.Contents()) && (Restores(fs.Contents(), before) || (prepared && Restores(fs.Contents(), after)))
    ensures fs.wholeRecords && Restartable(old(fs.Contents())) ==> Restartable(fs.Contents())
    ensures done ==>
      && fs.jobs == map[] && (fs.targets == before || (prepared && fs.targets == after))
      && Restores(last, fs.targets) && ReportsStates(report, last.jobs) && last.jobs.Keys <= {id}
      && (report.committed != [] ==> prepared && fs.targets == after)
      && (report.rolledBack != [] ==> prepared && fs.targets == before)
      && (id in last.jobs && last.jobs[id].journal.Some? ==> fs.targets == if id in report.committed then after else before)
  {
    ghost var start := fs.Contents();
    ghost var goal := if Restores(start, before) then before else after;
    done, report, last := RecoverUntilDone(fs, boots, goal);
    if done { ReportDecides(start, last, report, id, before, after, prepared, goal); }
  }

  lemma ReportDecides(start: Disk, last: Disk, report: Recovery, id: string, before: Files, after: Files, prepared: bool,
                      goal: Files)
    requires VerdictDecides(start, id, before, after, prepared) && Restores(start, goal) && last.jobs.Keys <= {id}
    requires SameVerdicts(start, last) && ReportsStates(report, last.jobs) && AllRecoverable(last.jobs)
    ensures report.committed != [] ==> prepared && goal == after
    ensures report.rolledBack != [] ==> prepared && goal == before
    ensures id in last.jobs && last.jobs[id].journal.Some? ==> goal == if id in report.committed then after else before
  {
    if report.committed != [] { assert report.committed[0] in report.committed && report.committed[0] in last.jobs.Keys; }
    if report.rolledBack != [] { assert report.rolledBack[0] in report.rolledBack && report.rolledBack[0] in last.jobs.Keys; }
    if id in last.jobs && last.jobs[id].journal.Some? {
      assert Recoverable(id, last.jobs[id]) && SameVerdict(start, last, id);
      if State(last.jobs[id]) == Some(Committed) {
        RestoresIsUnique(start, goal, after);
      } else {
        RestoresIsUnique(start, goal, before);
      }
    }
  }

  lemma NoOtherJobs(d: Disk, id: string)
    requires d.jobs - {id} == map[]
    ensures forall other :: other in d.jobs ==> other == id
  {
    assert d.jobs.Keys - {id} == (d.jobs - {id}).Keys == {};
    assert forall other :: other in d.jobs.Keys ==> other == id || other in d.jobs.Keys - {id};
  }
}
