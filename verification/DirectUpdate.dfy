/** The unprivileged launcher update: a file set applied with atomic replacement, so that no file name
    disappears, and committed together with an immediate recovery. */
module DirectUpdate {
  import opened Outcomes
  import opened Text
  import opened FileSets
  import opened Journals
  import opened Disks
  import opened Transactions
  import opened FileSystems
  import opened FileSetJobs
  import opened FileSetPreparation

  const MAX_DIRECT_FILES: nat := 64
  const MAX_DIRECT_FILE_BYTES: nat := 128 * 1024 * 1024
  const MAX_DIRECT_TOTAL_BYTES: nat := 256 * 1024 * 1024

  predicate HasExtension(name: string, extension: string) {
    var dot := LastIndex(name, '.');
    dot.Some? && dot.value > 0 && Lower(name[dot.value + 1..]) == extension
  }

  predicate DirectChar(c: char) {
    IsLowerLetter(c) || IsUpperLetter(c) || IsDigit(c) || c in "_-./"
  }

  /** `path_allowed`. */
  predicate PathAllowed(path: string, launcher: string) {
    && ValidRelativePath(path)
    && |path| <= 240
    && (forall i :: 0 <= i < |path| ==> DirectChar(path[i]))
    && PlaceAllowed(path, Split(path, '/'), launcher)
  }

  predicate PlaceAllowed(path: string, parts: seq<string>, launcher: string) {
    if |parts| == 1 then path == launcher || HasExtension(path, "dll")
    else
      && |parts| >= 3
      && Lower(parts[0]) == "7launcher"
      && Lower(parts[1]) == "resources"
      && !HasExtension(parts[|parts| - 1], "exe")
  }

  predicate EntryAllowed(file: FileEntry, launcher: string) {
    PathAllowed(file.path, launcher) && 0 < file.size <= MAX_DIRECT_FILE_BYTES
  }

  /** The name ends with a dot and this extension, whatever its case, and something stands before them. */
  predicate EndsWithExtension(name: string, extension: string) {
    && |name| > |extension| + 1
    && name[|name| - |extension| - 1] == '.'
    && Lower(name[|name| - |extension|..]) == extension
  }

  lemma ExtensionIsAtTheEnd(name: string, extension: string)
    requires '.' !in extension
    ensures HasExtension(name, extension) <==> EndsWithExtension(name, extension)
  {
    var dot := LastIndex(name, '.');
    if EndsWithExtension(name, extension) {
      var n := |name| - |extension| - 1;
      LowerKeepsDots(name[n + 1..]);
      assert name == name[..n] + ['.'] + name[n + 1..];
      LastIndexOfJoined(name[..n], '.', name[n + 1..]);
    }
  }

  lemma LowerKeepsDots(s: string)
    ensures '.' in s <==> '.' in Lower(s)
  {
    if '.' in s {
      var i :| 0 <= i < |s| && s[i] == '.';
      assert Lower(s)[i] == '.';
    }
    if '.' in Lower(s) {
      var i :| 0 <= i < |Lower(s)| && Lower(s)[i] == '.';
      assert s[i] == '.';
    }
  }

  lemma DirectCharMeans(c: char)
    ensures DirectChar(c) <==> 'a' <= c <= 'z' || 'A' <= c <= 'Z' || '0' <= c <= '9' || c in "_-./"
  {}

  /** What a direct update may replace: the launcher and libraries beside it, and below
      7launcher/resources anything but executables. */
  lemma PlaceAllowedMeans(path: string, parts: seq<string>, launcher: string)
    ensures PlaceAllowed(path, parts, launcher) <==>
      || (|parts| == 1 && (path == launcher || EndsWithExtension(path, "dll")))
      || (&& |parts| >= 3 && Lower(parts[0]) == "7launcher" && Lower(parts[1]) == "resources"
          && !EndsWithExtension(parts[|parts| - 1], "exe"))
  {
    ExtensionIsAtTheEnd(path, "dll");
    if |parts| > 0 { ExtensionIsAtTheEnd(parts[|parts| - 1], "exe"); }
  }

  /** Exactly one of the first `n` files has the launcher's path. */
  ghost predicate NamedOnce(files: seq<FileEntry>, launcher: string, n: nat)
    requires n <= |files|
  {
    exists k :: 0 <= k < n && files[k].path == launcher
                && forall j :: 0 <= j < n && j != k ==> files[j].path != launcher
  }

  ghost predicate ValidPlan(fs: FileSet, launcher: string) {
    && 0 < |fs.files| <= MAX_DIRECT_FILES
    && fs.removeFiles == []
    && NamedOnce(fs.files, launcher, |fs.files|)
    && (forall k :: 0 <= k < |fs.files| ==>
          PathAllowed(fs.files[k].path, launcher) && 0 < fs.files[k].size <= MAX_DIRECT_FILE_BYTES)
    && DeclaredSize(fs.files) <= MAX_DIRECT_TOTAL_BYTES
  }

  /** How many of the first `n` files have the launcher's path. */
  function Occurrences(files: seq<FileEntry>, launcher: string, n: nat): nat
    requires n <= |files|
  {
    if n == 0 then 0 else Occurrences(files, launcher, n - 1) + (if files[n - 1].path == launcher then 1 else 0)
  }

  lemma {:induction false} OccurrencesZero(files: seq<FileEntry>, launcher: string, n: nat)
    requires n <= |files|
    ensures Occurrences(files, launcher, n) == 0 <==> forall k :: 0 <= k < n ==> files[k].path != launcher
  {
    if n > 0 { OccurrencesZero(files, launcher, n - 1); }
  }

  lemma {:induction false} OccurrencesOne(files: seq<FileEntry>, launcher: string, n: nat)
    requires n <= |files|
    ensures Occurrences(files, launcher, n) == 1 <==> NamedOnce(files, launcher, n)
  {
    if n > 0 {
      OccurrencesOne(files, launcher, n - 1);
      OccurrencesZero(files, launcher, n - 1);
      if files[n - 1].path != launcher && NamedOnce(files, launcher, n - 1) {
        var k :| 0 <= k < n - 1 && files[k].path == launcher
                 && forall j :: 0 <= j < n - 1 && j != k ==> files[j].path != launcher;
      }
    }
  }

  /** What the loop of `validate_plan` has checked after `n` files; `allowed` is its check of one. */
  ghost predicate Planned(files: seq<FileEntry>, allowed: FileEntry -> bool, n: nat)
    requires n <= |files|
  {
    n == 0 || (&& Planned(files, allowed, n - 1)
               && allowed(files[n - 1])
               && DeclaredSize(files[..n]) <= MAX_DIRECT_TOTAL_BYTES)
  }

  lemma {:induction false} PlannedMeansWithinBounds(files: seq<FileEntry>, allowed: FileEntry -> bool, n: nat)
    requires n <= |files|
    ensures Planned(files, allowed, n) <==>
      (forall k :: 0 <= k < n ==> allowed(files[k])) && DeclaredSize(files[..n]) <= MAX_DIRECT_TOTAL_BYTES
  {
    if n > 0 {
      PlannedMeansWithinBounds(files, allowed, n - 1);
      DeclaredSizeGrows(files[..n], n - 1);
      assert files[..n][..n - 1] == files[..n - 1];
    }
  }

  lemma {:induction false} PlannedPrefix(files: seq<FileEntry>, allowed: FileEntry -> bool, n: nat, m: nat)
    requires n <= m <= |files| && Planned(files, allowed, m)
    ensures Planned(files, allowed, n)
  {
    if n < m { PlannedPrefix(files, allowed, n, m - 1); }
  }

  method CheckFiles(files: seq<FileEntry>, allowed: FileEntry -> bool) returns (ok: bool)
    ensures ok <==> Planned(files, allowed, |files|)
  {
    var total: nat := 0;
    for k := 0 to |files|
      invariant Planned(files, allowed, k) && total == DeclaredSize(files[..k])
    {
      assert files[..k + 1][..k] == files[..k];
      if Planned(files, allowed, |files|) { PlannedPrefix(files, allowed, k + 1, |files|); }
      total := total + files[k].size;
      if !allowed(files[k]) || total > MAX_DIRECT_TOTAL_BYTES { return false; }
    }
    return true;
  }

  /** `validate_plan`: accepts exactly the plans that name the launcher once, remove nothing, stay on
      the allowed paths and keep every file and the total within bounds. */
  method ValidatePlan(fs: FileSet, launcher: string) returns (accepted: bool)
    ensures accepted <==> ValidPlan(fs, launcher)
  {
    var files := fs.files;
    var allowed := (file: FileEntry) => EntryAllowed(file, launcher);
    OccurrencesOne(files, launcher, |files|);
    PlannedMeansWithinBounds(files, allowed, |files|);
    assert files[..|files|] == files;
    if files == [] || |files| > MAX_DIRECT_FILES || fs.removeFiles != [] || Occurrences(files, launcher, |files|) != 1 {
      return false;
    }
    accepted := CheckFiles(files, allowed);
  }

  /** Every name of `a` is still there, and with the bytes of `a` or of `b`. */
  ghost predicate NamesKept(a: Files, now: Files, b: Files) {
    forall t :: t in a ==> t in now && (now[t] == a[t] || (t in b && now[t] == b[t]))
  }

  /** Between two file maps without gaps, a name that both have is always there. */
  lemma SharedNamesStay(now: Files, a: Files, b: Files)
    requires Between(now, a, b, false) && forall t :: t in a ==> t in b
    ensures NamesKept(a, now, b)
  {
    forall t | t in a ensures t in now && (now[t] == a[t] || now[t] == b[t]) {
      assert || Lookup(now, t) == Lookup(a, t)
             || Lookup(now, t) == Lookup(b, t);
    }
  }

  /** A plan removes nothing, so the new files have every old name. */
  lemma PlanKeepsNames(base: Files, h: Header, m: Verified, launcher: string, payload: map<nat, File>)
    requires ValidHeader(h) && BuiltFrom(h.entries, m.fileSet) && ValidPlan(m.fileSet, launcher)
    requires IndexesAgree(h) && PayloadComplete(h, payload)
    ensures forall t :: t in base ==> t in Applied(base, h, payload)
  {
    forall t | t in base ensures t in Applied(base, h, payload) {
      if t in ManagedBy(h) {
        var k :| 0 <= k < |h.entries| && t == TargetAt(h, k);
        PlannedEntryIsNew(h, m, launcher, payload, k);
        assert Lookup(Applied(base, h, payload), t) == NewFile(h, k, payload);
      } else {
        assert Lookup(Applied(base, h, payload), t) == Lookup(base, t);
      }
    }
  }

  lemma PlannedEntryIsNew(h: Header, m: Verified, launcher: string, payload: map<nat, File>, k: nat)
    requires BuiltFrom(h.entries, m.fileSet) && ValidPlan(m.fileSet, launcher) && k < |h.entries|
    requires IndexesAgree(h) && PayloadComplete(h, payload)
    ensures NewFile(h, k, payload).Some?
  {
    assert h.entries[k] == EntryFor(m.fileSet, k, h.entries[k].original);
    assert HasPayload(h, k, payload);
  }

  /** The launcher is one of the files that the plan replaces. */
  lemma LauncherIsManaged(h: Header, m: Verified, launcher: string)
    requires BuiltFrom(h.entries, m.fileSet) && ValidPlan(m.fileSet, launcher)
    ensures Target(h.root, Lower(launcher)) in ManagedBy(h)
  {
    var k :| 0 <= k < |m.fileSet.files| && m.fileSet.files[k].path == launcher;
    assert h.entries[k] == EntryFor(m.fileSet, k, h.entries[k].original);
    assert TargetAt(h, k) == Target(h.root, Lower(launcher));
  }

  lemma BetweenChains(now: Files, start: Files, goal: Files, before: Files, after: Files)
    requires goal in {before, after} && Between(start, before, after, false) && Between(now, start, goal, false)
    ensures Between(now, before, after, false)
  {
    forall t ensures Lookup(now, t) == Lookup(before, t) || Lookup(now, t) == Lookup(after, t) {
      assert Lookup(now, t) == Lookup(start, t) || Lookup(now, t) == Lookup(goal, t);
    }
  }

  /** Recovery in this mode, from a state between old and new to either of them. */
  method RecoverKeepingNames(fs: FileSystem, ghost goal: Files, ghost before: Files, ghost after: Files) returns (r: Outcome)
    requires fs.atomic && Sound(fs.Contents()) && Restores(fs.Contents(), goal) && goal in {before, after}
    requires Between(fs.targets, before, after, false) && forall t :: t in before ==> t in after
    modifies fs
    ensures fs.Grows()
    ensures Sound(fs.Contents()) && Restores(fs.Contents(), goal)
    ensures Between(fs.targets, before, after, false) && NamesKept(before, fs.targets, after)
    ensures fs.wholeRecords && Restartable(old(fs.Contents())) ==> Restartable(fs.Contents())
    ensures r.Done? ==> fs.targets == goal && fs.jobs == map[]
  {
    ghost var start := fs.targets;
    var result;
    r, result := RecoverIncomplete(fs, goal);
    BetweenChains(fs.targets, start, goal, before, after);
    SharedNamesStay(fs.targets, before, after);
  }

  /** `PreparedDirectUpdate::commit`: a commit, and on failure a recovery at once. Whatever happens,
      even a power loss, no file name that existed is ever missing and each holds old or new bytes. Ok
      means all new; an error other than RecoveryIncomplete means that every file is as before and that
      nothing is left to recover. Without faults an unchanged directory is updated. */
  method CommitDirectUpdate(fs: FileSystem, h: Header, ghost m: Verified, ghost launcher: string) returns (r: Commit)
    requires fs.atomic && Sound(fs.Contents()) && ReadyToCommit(fs.Contents(), h) && fs.jobs.Keys == {h.jobId}
    requires BuiltFrom(h.entries, m.fileSet) && ValidPlan(m.fileSet, launcher)
    requires PayloadComplete(h, fs.jobs[h.jobId].prepared)
    modifies fs
    ensures fs.Grows()
    ensures Sound(fs.Contents())
    ensures var after := Applied(old(fs.targets), h, old(fs.jobs)[h.jobId].prepared);
      && NamesKept(old(fs.targets), fs.targets, after) && Between(fs.targets, old(fs.targets), after, false)
      && (Restores(fs.Contents(), old(fs.targets)) || Restores(fs.Contents(), after))
      && (r.CommitOk? ==> fs.targets == after && Restores(fs.Contents(), after))
    ensures r.CommitErr? ==> Restores(fs.Contents(), old(fs.targets))
    ensures r.CommitErr? && r.code != RecoveryIncomplete ==> fs.targets == old(fs.targets) && fs.jobs == map[]
    ensures fs.wholeRecords ==> Restartable(fs.Contents())
    ensures fs.faults == old(fs.faults) && SnapshotsMatch(h, old(fs.targets)) ==> r == CommitOk(false)
  {
    ghost var before, payload := fs.targets, fs.jobs[h.jobId].prepared;
    ghost var after := Applied(before, h, payload);
    assert ActiveJobs(fs.Contents()) == map[];
    PlanKeepsNames(before, h, m, launcher, payload);
    assert fs.jobs - {h.jobId} == map[];
    r := CommitFileSet(fs, h, before);
    NoOtherJobs(fs.Contents(), h.jobId);
    SharedNamesStay(fs.targets, before, after);
    if r.CommitErr? {
      var recovered := RecoverKeepingNames(fs, before, before, after);
      if recovered.PowerLoss? { return Interrupted; }
      if recovered.Failed? { return CommitErr(RecoveryIncomplete); }
    }
  }

  /** A commit and then any number of starts, each of which recovers, until one completes. At no stop is a
      name missing or its bytes neither old nor new; in the end all files are old or all are the manifest's,
      as the commit reported. */
  method DirectUpdateAcrossRestarts(fs: FileSystem, h: Header, ghost m: Verified, ghost launcher: string,
                                    ghost staging: map<string, seq<byte>>, boots: nat)
    returns (r: Commit, recovered: bool)
    requires fs.atomic && Sound(fs.Contents()) && ReadyToCommit(fs.Contents(), h) && fs.jobs.Keys == {h.jobId}
    requires BuiltFrom(h.entries, m.fileSet) && ValidPlan(m.fileSet, launcher)
    requires PayloadComplete(h, fs.jobs[h.jobId].prepared)
    modifies fs
    ensures var after := Applied(old(fs.targets), h, old(fs.jobs)[h.jobId].prepared);
      && NamesKept(old(fs.targets), fs.targets, after)
      && (recovered ==> fs.jobs == map[] && fs.targets in {old(fs.targets), after})
      && (recovered && r.CommitOk? ==> fs.targets == after)
    ensures recovered && r.CommitErr? ==> fs.targets == old(fs.targets)
    ensures recovered && Carries(old(fs.jobs)[h.jobId].prepared, m.fileSet.files, staging) ==>
      ManifestApplied(old(fs.targets), fs.targets, m.fileSet, h.root, staging)
      || (!r.CommitOk? && fs.targets == old(fs.targets))
    ensures fs.wholeRecords ==> Restartable(fs.Contents())
  {
    ghost var before, payload := fs.targets, fs.jobs[h.jobId].prepared;
    ghost var after := Applied(before, h, payload);
    PlanKeepsNames(before, h, m, launcher, payload);
    if Carries(payload, m.fileSet.files, staging) { AppliedIsTheManifest(before, h, m.fileSet, h.root, payload, staging); }
    r := CommitDirectUpdate(fs, h, m, launcher);
    ghost var goal := if r.CommitErr? || (r.Interrupted? && Restores(fs.Contents(), before)) then before else after;
    recovered := false;
    for boot := 0 to boots
      invariant Sound(fs.Contents()) && Restores(fs.Contents(), goal) && !recovered
      invariant Between(fs.targets, before, after, false) && NamesKept(before, fs.targets, after)
      invariant fs.wholeRecords ==> Restartable(fs.Contents())
    {
      var run := RecoverKeepingNames(fs, goal, before, after);
      if run.Done? { return r, true; }
    }
  }

  /** `PreparedDirectUpdate::cancel`: recovery discards the prepared job and no file is ever touched. */
  method CancelDirectUpdate(fs: FileSystem, h: Header) returns (r: Outcome)
    requires fs.atomic && Sound(fs.Contents()) && IsPrepared(fs.Contents(), h) && fs.jobs.Keys == {h.jobId}
    modifies fs
    ensures Sound(fs.Contents()) && fs.targets == old(fs.targets) && Restores(fs.Contents(), fs.targets)
    ensures r.Done? ==> fs.jobs == map[]
    ensures fs.wholeRecords ==> Restartable(fs.Contents())
    ensures fs.Grows()
    ensures fs.faults == old(fs.faults) ==> r.Done?
  {
    ghost var before := fs.targets;
    assert ActiveJobs(fs.Contents()) == map[];
    var result;
    r, result := RecoverIncomplete(fs, before);
    UnmovedBetweenEqualEnds(fs.targets, before);
  }

  lemma UnmovedBetweenEqualEnds(now: Files, a: Files)
    requires Between(now, a, a, false)
    ensures now == a
  {
    forall t ensures Lookup(now, t) == Lookup(a, t) {}
    SameFiles(now, a);
  }
}
