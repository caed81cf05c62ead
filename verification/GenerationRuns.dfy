/** Whole runs of the service as far as file-set generations go: prepares, commits, power losses and
    restarts in any order. */
module GenerationRuns {
  import opened Outcomes
  import opened JobIds
  import opened ProtectedFiles
  import opened Generations

  datatype Started = Started(rootId: string, record: GenerationRecord)

  datatype Event =
    | PrepareFinishes(rootId: string, record: GenerationRecord)
    | CommitStarts
    | LosesPower
    | Starts(committedJobs: seq<string>)

  /** Commits that were started are on disk: their root's floor is theirs or a later one. */
  ghost predicate OnDisk(commits: seq<Started>, floors: Floors) {
    forall i :: 0 <= i < |commits| ==>
      commits[i].rootId in floors && Follows(commits[i].record, floors[commits[i].rootId])
  }

  /** Per root, commits start in generation order and no generation has two digests. */
  ghost predicate Ordered(commits: seq<Started>) {
    forall i, j :: 0 <= i < j < |commits| && commits[i].rootId == commits[j].rootId ==>
      Follows(commits[i].record, commits[j].record)
  }

  lemma ExtendsTransitive(a: Floors, b: Floors, c: Floors)
    requires Extends(a, b) && Extends(b, c)
    ensures Extends(a, c)
  {
    forall root | root in a ensures root in c && Follows(a[root], c[root]) {
      assert Follows(a[root], b[root]) && Follows(b[root], c[root]);
    }
  }

  lemma OnDiskExtends(commits: seq<Started>, a: Floors, b: Floors)
    requires OnDisk(commits, a) && Extends(a, b)
    ensures OnDisk(commits, b)
  {
    forall i | 0 <= i < |commits| ensures commits[i].rootId in b && Follows(commits[i].record, b[commits[i].rootId]) {
      assert Follows(commits[i].record, a[commits[i].rootId]);
      assert Follows(a[commits[i].rootId], b[commits[i].rootId]);
    }
  }

  /** A commit whose record is its root's floor keeps the order. */
  lemma NextCommit(commits: seq<Started>, floors: Floors, next: Started)
    requires OnDisk(commits, floors) && Ordered(commits)
    requires next.rootId in floors && floors[next.rootId] == next.record
    ensures OnDisk(commits + [next], floors) && Ordered(commits + [next])
  {
    var all := commits + [next];
    forall i, j | 0 <= i < j < |all| && all[i].rootId == all[j].rootId ensures Follows(all[i].record, all[j].record) {
      if j == |commits| { assert Follows(commits[i].record, floors[commits[i].rootId]); }
    }
  }

  function RecordOf(key: JobKey): GenerationRecord { GenerationRecord(key.generation, key.digest) }

  lemma AcceptKeepsValid(floors: Floors, key: JobKey)
    requires key.Valid() && ValidFloors(floors) && Accept(floors, key.rootId, RecordOf(key)).Ok?
    ensures ValidFloors(Accept(floors, key.rootId, RecordOf(key)).value)
  {}

  ghost predicate ValidKeys(keys: seq<Option<JobKey>>) {
    forall i :: 0 <= i < |keys| && keys[i].Some? ==> keys[i].value.Valid()
  }

  lemma KeyIsValid(jobId: string)
    ensures GenerationFromJobId(jobId).Some? ==> GenerationFromJobId(jobId).value.Valid()
  {
    JobIdsAreExactlyTheFormattedKeys(jobId);
  }

  /** What the job IDs say; None for one of another form. */
  function KeysOf(jobs: seq<string>): (keys: seq<Option<JobKey>>)
    ensures |keys| == |jobs| && ValidKeys(keys)
  {
    if jobs == [] then []
    else
      KeyIsValid(jobs[|jobs| - 1]);
      KeysOf(jobs[..|jobs| - 1]) + [GenerationFromJobId(jobs[|jobs| - 1])]
  }

  lemma {:induction false} KeysOfAt(jobs: seq<string>, k: nat)
    requires k < |jobs|
    ensures KeysOf(jobs)[k] == GenerationFromJobId(jobs[k])
  {
    if k < |jobs| - 1 { KeysOfAt(jobs[..|jobs| - 1], k); }
  }

  /** One committed job that recovery found. A job ID of another form is passed over. */
  function AcceptKey(floors: Floors, key: Option<JobKey>): (r: Result<Floors>)
    ensures r.Ok? ==> Extends(floors, r.value)
  {
    if key.None? then Ok(floors) else Accept(floors, key.value.rootId, RecordOf(key.value))
  }

  /** Startup accepts the generation of every job that recovery found committed. */
  function AcceptKeys(floors: Floors, keys: seq<Option<JobKey>>): (r: Result<Floors>)
    ensures r.Ok? ==> Extends(floors, r.value)
  {
    if keys == [] then Ok(floors)
    else
      var front := AcceptKeys(floors, keys[..|keys| - 1]);
      if front.Err? then front
      else
        var r := AcceptKey(front.value, keys[|keys| - 1]);
        if r.Ok? then (ExtendsTransitive(floors, front.value, r.value); r) else r
  }

  lemma AcceptKeyKeepsValid(floors: Floors, key: Option<JobKey>)
    requires ValidFloors(floors) && (key.Some? ==> key.value.Valid())
    ensures AcceptKey(floors, key).Ok? ==> ValidFloors(AcceptKey(floors, key).value)
  {
    if key.Some? && AcceptKey(floors, key).Ok? { AcceptKeepsValid(floors, key.value); }
  }

  /** The floor of a root after these jobs: the record of its last job, or the floor before them. */
  function FloorAfter(floors: Floors, keys: seq<Option<JobKey>>, rootId: string): Option<GenerationRecord> {
    if keys == [] then Lookup(floors, rootId)
    else
      var last := keys[|keys| - 1];
      if last.Some? && last.value.rootId == rootId then Some(RecordOf(last.value))
      else FloorAfter(floors, keys[..|keys| - 1], rootId)
  }

  /** The job does not go back behind the floor that the jobs before it leave. */
  predicate KeyFollows(floors: Floors, before: seq<Option<JobKey>>, key: Option<JobKey>) {
    key.None? ||
    var floor := FloorAfter(floors, before, key.value.rootId);
    floor.None? || Follows(floor.value, RecordOf(key.value))
  }

  lemma AcceptKeyDecides(floors: Floors, start: Floors, before: seq<Option<JobKey>>, key: Option<JobKey>)
    requires key.Some? ==> key.value.Valid()
    requires forall root :: Lookup(floors, root) == FloorAfter(start, before, root)
    ensures AcceptKey(floors, key).Ok? <==> KeyFollows(start, before, key)
    ensures AcceptKey(floors, key).Ok? ==>
              forall root :: Lookup(AcceptKey(floors, key).value, root) == FloorAfter(start, before + [key], root)
  {
    assert (before + [key])[..|before|] == before;
    if key.Some? { assert Lookup(floors, key.value.rootId) == FloorAfter(start, before, key.value.rootId); }
  }

  lemma {:induction false} AcceptKeysDecides(floors: Floors, keys: seq<Option<JobKey>>)
    requires ValidKeys(keys)
    ensures AcceptKeys(floors, keys).Ok? <==> forall i :: 0 <= i < |keys| ==> KeyFollows(floors, keys[..i], keys[i])
    ensures AcceptKeys(floors, keys).Ok? ==>
              forall root :: Lookup(AcceptKeys(floors, keys).value, root) == FloorAfter(floors, keys, root)
  {
    if keys != [] {
      var front, last := keys[..|keys| - 1], keys[|keys| - 1];
      AcceptKeysDecides(floors, front);
      assert front + [last] == keys;
      assert forall i :: 0 <= i < |front| ==> front[..i] == keys[..i] && front[i] == keys[i];
      if AcceptKeys(floors, front).Ok? { AcceptKeyDecides(AcceptKeys(floors, front).value, floors, front, last); }
    }
  }

  /** Startup accepts the committed jobs that recovery found exactly if each of them follows the floor that
      the floors on disk and the jobs before it leave for its root. */
  lemma StartupAcceptsJobs(floors: Floors, jobs: seq<string>)
    ensures AcceptKeys(floors, KeysOf(jobs)).Ok? <==>
            forall i :: 0 <= i < |jobs| ==> KeyFollows(floors, KeysOf(jobs)[..i], KeysOf(jobs)[i])
  {
    AcceptKeysDecides(floors, KeysOf(jobs));
  }

  /** A floor that the jobs move is the record of one of them. */
  lemma {:induction false} FloorComesFrom(floors: Floors, keys: seq<Option<JobKey>>, root: string)
    ensures FloorAfter(floors, keys, root) == Lookup(floors, root)
            || exists i :: 0 <= i < |keys| && NamesFloor(keys[i], root, FloorAfter(floors, keys, root))
  {
    if keys != [] {
      var last := keys[|keys| - 1];
      if last.Some? && last.value.rootId == root {
        assert NamesFloor(keys[|keys| - 1], root, FloorAfter(floors, keys, root));
      } else {
        var front := keys[..|keys| - 1];
        FloorComesFrom(floors, front, root);
        if FloorAfter(floors, keys, root) != Lookup(floors, root) {
          var i :| 0 <= i < |front| && NamesFloor(front[i], root, FloorAfter(floors, front, root));
          assert keys[i] == front[i];
        }
      }
    }
  }

  predicate NamesFloor(key: Option<JobKey>, root: string, floor: Option<GenerationRecord>) {
    key.Some? && key.value.rootId == root && floor == Some(RecordOf(key.value))
  }

  /** An accepted job's root ends with its record or a later one. */
  lemma {:induction false} AcceptedIsFollowed(floors: Floors, keys: seq<Option<JobKey>>, i: nat)
    requires AcceptKeys(floors, keys).Ok? && i < |keys| && keys[i].Some?
    ensures var after := AcceptKeys(floors, keys).value;
      keys[i].value.rootId in after && Follows(RecordOf(keys[i].value), after[keys[i].value.rootId])
  {
    var front := AcceptKeys(floors, keys[..|keys| - 1]);
    if i < |keys| - 1 {
      AcceptedIsFollowed(floors, keys[..|keys| - 1], i);
      var root := keys[i].value.rootId;
      assert Follows(front.value[root], AcceptKeys(floors, keys).value[root]);
    }
  }

  function KeyOf(commit: Started): JobKey { JobKey(commit.rootId, commit.record.generation, commit.record.digest) }

  /** The commit's record is still its root's floor. */
  predicate NotOvertaken(floors: Floors, commit: Started) {
    Lookup(floors, commit.rootId) == Some(commit.record)
  }

  lemma {:induction false} FloorsUnmoved(floors: Floors, found: seq<Started>, keys: seq<Option<JobKey>>, root: string)
    requires |keys| == |found|
    requires forall i :: 0 <= i < |found| ==> keys[i] == Some(KeyOf(found[i])) && NotOvertaken(floors, found[i])
    ensures FloorAfter(floors, keys, root) == Lookup(floors, root)
  {
    if keys != [] {
      assert NotOvertaken(floors, found[|found| - 1]);
      FloorsUnmoved(floors, found[..|found| - 1], keys[..|keys| - 1], root);
    }
  }

  /** With the commits before it not overtaken, a found commit follows exactly if it is not overtaken. */
  lemma FoundFollows(commits: seq<Started>, floors: Floors, found: seq<Started>, keys: seq<Option<JobKey>>, n: nat)
    requires OnDisk(commits, floors) && n < |keys| == |found| && found[n] in commits
    requires forall i :: 0 <= i < |found| ==> keys[i] == Some(KeyOf(found[i]))
    requires forall i :: 0 <= i < n ==> NotOvertaken(floors, found[i])
    ensures KeyFollows(floors, keys[..n], keys[n]) <==> NotOvertaken(floors, found[n])
  {
    FloorsUnmoved(floors, found[..n], keys[..n], found[n].rootId);
    var i :| 0 <= i < |commits| && commits[i] == found[n];
    assert Follows(commits[i].record, floors[commits[i].rootId]);
  }

  lemma {:induction false} FoundFollowUpTo(commits: seq<Started>, floors: Floors, found: seq<Started>,
                                           keys: seq<Option<JobKey>>, n: nat)
    requires OnDisk(commits, floors) && n <= |keys| == |found|
    requires forall i :: 0 <= i < |found| ==> keys[i] == Some(KeyOf(found[i])) && found[i] in commits
    ensures (forall i :: 0 <= i < n ==> KeyFollows(floors, keys[..i], keys[i])) <==>
            (forall i :: 0 <= i < n ==> NotOvertaken(floors, found[i]))
  {
    if n > 0 {
      FoundFollowUpTo(commits, floors, found, keys, n - 1);
      if forall i :: 0 <= i < n - 1 ==> NotOvertaken(floors, found[i]) {
        FoundFollows(commits, floors, found, keys, n - 1);
      }
    }
  }

  /** Of the commits that were really started, startup accepts those that recovery found exactly if none
      of them was overtaken by a later generation of its root. */
  lemma StartupAcceptsCommits(commits: seq<Started>, floors: Floors, found: seq<Started>, jobs: seq<string>)
    requires OnDisk(commits, floors) && |found| == |jobs|
    requires forall i :: 0 <= i < |found| ==> KeysOf(jobs)[i] == Some(KeyOf(found[i])) && found[i] in commits
    ensures AcceptKeys(floors, KeysOf(jobs)).Ok? <==> forall i :: 0 <= i < |found| ==> NotOvertaken(floors, found[i])
  {
    StartupAcceptsJobs(floors, jobs);
    FoundFollowUpTo(commits, floors, found, KeysOf(jobs), |found|);
  }

  predicate Fits(codec: Codec, floors: Floors) { |codec.encode(floors)| <= MAX_GENERATION_REGISTRY_BYTES }

  /** The record is acceptable and the floors with it fit their file. */
  predicate Storable(codec: Codec, floors: Floors, rootId: string, record: GenerationRecord) {
    var accepted := Accept(floors, rootId, record);
    accepted.Ok? && Fits(codec, accepted.value)
  }

  /** Some committed job has an ID of the service's form, so the floors are saved again. */
  predicate AnyKey(keys: seq<Option<JobKey>>) { exists i :: 0 <= i < |keys| && keys[i].Some? }

  /** The part of `ServiceState` that concerns file-set generations. `active` is a prepared job. */
  class Service {
    const store: GenerationStore
    var up: bool
    var active: Option<Started>
    /** Every commit that was started, over all runs of the service. */
    ghost var commits: seq<Started>

    ghost predicate Valid()
      reads this, store, store.file
    {
      && store.codec.Faithful() && store.file.wholeWrites
      && store.Persisted().Some?
      && (up ==> ValidFloors(store.floors) && Extends(store.Persisted().value, store.floors))
      && (up && active.Some? ==> Lookup(store.Persisted().value, active.value.rootId) == Some(active.value.record))
      && OnDisk(commits, store.Persisted().value)
      && Ordered(commits)
    }

    constructor (store: GenerationStore)
      requires store.codec.Faithful() && store.file.wholeWrites && store.Persisted().Some?
      ensures this.store == store && Valid() && !up && commits == []
    {
      this.store, up, active, commits := store, false, None, [];
    }

    /** The generation steps of `finish_prepare`. */
    method FinishPrepare(rootId: string, record: GenerationRecord) returns (r: Outcome)
      requires Valid() && up && active.None? && |record.digest| == DIGEST_BYTES
      modifies this, store, store.file
      ensures Valid() && commits == old(commits)
      ensures Extends(old(store.Persisted()).value, store.Persisted().value)
      ensures r.Done? ==> up && active == Some(Started(rootId, record)) && Lookup(store.Persisted().value, rootId) == Some(record)
      ensures !r.Done? ==> active.None?
      ensures old(store.file.disturbed) ==> store.file.disturbed
      ensures r.Done? ==> Tidy(store.file.files) && Accept(old(store.floors), rootId, record) == Ok(store.floors)
      ensures !store.file.disturbed && old(Tidy(store.file.files) && Storable(store.codec, store.floors, rootId, record)) ==> r.Done?
    {
      ghost var before := store.Persisted().value;
      var accepted := Accept(store.floors, rootId, record);
      if accepted.Err? {
        assert Extends(before, before);
        return Failed(accepted.error);
      }
      ExtendsTransitive(before, store.floors, accepted.value);
      store.floors := accepted.value;
      assert Extends(store.floors, store.floors) && Extends(before, before);
      r := store.Save();
      OnDiskExtends(commits, before, store.Persisted().value);
      if r.PowerLoss? { up := false; }
      if r.Done? { active := Some(Started(rootId, record)); }
    }

    /** A commit starts: its generation is on disk, and it is not older than any earlier commit of the
        same root. */
    method StartCommit()
      requires Valid() && up && active.Some?
      modifies this
      ensures Valid() && up && active.None?
      ensures commits == old(commits) + [old(active).value]
      ensures Lookup(store.Persisted().value, old(active).value.rootId) == Some(old(active).value.record)
    {
      NextCommit(commits, store.Persisted().value, active.value);
      commits := commits + [active.value];
      active := None;
    }

    /** The generation steps of a service start. Without faults it succeeds exactly if the committed jobs
        that recovery found are accepted, as long as the floors still fit their file. */
    method Start(committedJobs: seq<string>) returns (r: Outcome)
      requires Valid() && !up
      modifies this, store, store.file
      ensures Valid() && commits == old(commits) && active.None? && up == r.Done?
      ensures Extends(old(store.Persisted()).value, store.Persisted().value)
      ensures AcceptKeys(old(store.Persisted()).value, KeysOf(committedJobs)).Err? ==>
        !r.Done? && store.Persisted() == old(store.Persisted())
      ensures old(store.file.disturbed) ==> store.file.disturbed
      ensures var accepted := AcceptKeys(old(store.Persisted()).value, KeysOf(committedJobs));
        && (store.Persisted() == old(store.Persisted()) || (accepted.Ok? && store.Persisted() == Some(accepted.value)))
        && (r.Done? ==> accepted == Ok(store.floors) && Tidy(store.file.files))
        && (!store.file.disturbed && accepted.Ok? && (AnyKey(KeysOf(committedJobs)) ==> Fits(store.codec, accepted.value)) ==> r.Done?)
        && (!store.file.disturbed && accepted.Err? ==> r == Failed(accepted.error))
    {
      r := Load();
      if !r.Done? { return; }
      r := AcceptRecovered(committedJobs);
    }

    /** The service has read its floors and has not yet taken up the recovered jobs. */
    ghost predicate Loaded()
      reads this, store, store.file
    {
      Valid() && !up && active.None? && store.Persisted() == Some(store.floors) && ValidFloors(store.floors) && Tidy(store.file.files)
    }

    /** The start of `recover_service_state`: the floors are read. */
    method Load() returns (r: Outcome)
      requires Valid() && !up
      modifies this, store, store.file`files, store.file`disturbed
      ensures Valid() && !up && active.None? && commits == old(commits) && store.Persisted() == old(store.Persisted())
      ensures old(store.file.disturbed) ==> store.file.disturbed
      ensures r.Done? ==> Loaded()
      ensures !store.file.disturbed ==> r.Done?
    {
      active := None;
      r := store.Load();
    }

    /** The end of `recover_service_state`: the generations of the jobs that recovery found committed. */
    method AcceptRecovered(committedJobs: seq<string>) returns (r: Outcome)
      requires Loaded()
      modifies this, store, store.file
      ensures Valid() && commits == old(commits) && active.None? && up == r.Done?
      ensures old(store.file.disturbed) ==> store.file.disturbed
      ensures Extends(old(store.Persisted()).value, store.Persisted().value)
      ensures var accepted := AcceptKeys(old(store.Persisted()).value, KeysOf(committedJobs));
        && (accepted.Err? ==> !r.Done? && store.Persisted() == old(store.Persisted()))
        && (r.Done? ==> accepted == Ok(store.floors) && Tidy(store.file.files))
        && (store.Persisted() == old(store.Persisted()) || (accepted.Ok? && store.Persisted() == Some(accepted.value)))
        && (r.Done? && accepted.Ok? ==> store.Persisted() == Some(accepted.value))
        && (!store.file.disturbed && accepted.Ok? && (AnyKey(KeysOf(committedJobs)) ==> Fits(store.codec, accepted.value)) ==> r.Done?)
        && (!store.file.disturbed && accepted.Err? ==> r == Failed(accepted.error))
    {
      ghost var before := store.Persisted().value;
      assert Extends(before, before);
      r := Done;
      var accepted, recovered := AcceptEach(store.floors, KeysOf(committedJobs));
      if accepted.Err? { return Failed(accepted.error); }
      ghost var floors := accepted.value;
      store.floors := accepted.value;
      if recovered {
        r := store.Save();
        OnDiskExtends(commits, before, store.Persisted().value);
        if !r.Done? { return; }
      }
      assert Extends(floors, floors);
      up := true;
    }

    /** Any sequence of prepares, commits, power losses and starts. Events that the service cannot be
        in are passed over. The persisted floors never go down and never change the digest of a
        generation, and the commits of each root are in generation order. */
    method Run(events: seq<Event>)
      requires Valid()
      requires forall e :: e in events && e.PrepareFinishes? ==> |e.record.digest| == DIGEST_BYTES
      modifies this, store, store.file
      ensures Valid()
      ensures var before, after := old(store.Persisted()).value, store.Persisted().value;
        forall root :: root in before ==>
          && root in after && after[root].generation >= before[root].generation
          && (after[root].generation == before[root].generation ==> after[root].digest == before[root].digest)
      ensures old(commits) <= commits && OnDisk(commits, store.Persisted().value)
      ensures forall i, j :: 0 <= i < j < |commits| && commits[i].rootId == commits[j].rootId ==>
        && commits[i].record.generation <= commits[j].record.generation
        && (commits[i].record.generation == commits[j].record.generation ==> commits[i].record.digest == commits[j].record.digest)
    {
      ghost var before := store.Persisted().value;
      assert Extends(before, before);
      for i := 0 to |events|
        invariant Valid() && Extends(before, store.Persisted().value)
        invariant old(commits) <= commits
      {
        ghost var now := store.Persisted().value;
        Handle(events[i]);
        ExtendsTransitive(before, now, store.Persisted().value);
      }
    }

    method Handle(e: Event)
      requires Valid() && (e.PrepareFinishes? ==> |e.record.digest| == DIGEST_BYTES)
      modifies this, store, store.file
      ensures Valid() && old(commits) <= commits
      ensures Extends(old(store.Persisted()).value, store.Persisted().value)
    {
      assert Extends(store.Persisted().value, store.Persisted().value);
      match e {
        case PrepareFinishes(rootId, record) =>
          if up && active.None? { var r := FinishPrepare(rootId, record); }
        case CommitStarts =>
          if up && active.Some? { StartCommit(); }
        case LosesPower =>
          up := false;
        case Starts(jobs) =>
          if !up { var r := Start(jobs); }
      }
    }
  }

  /** The startup loop over the committed jobs. `recovered` says that some job was accepted. */
  method AcceptEach(start: Floors, keys: seq<Option<JobKey>>) returns (r: Result<Floors>, recovered: bool)
    requires ValidFloors(start) && ValidKeys(keys)
    ensures r == AcceptKeys(start, keys)
    ensures r.Ok? ==> ValidFloors(r.value) && (!recovered ==> r.value == start) && (recovered <==> AnyKey(keys))
  {
    recovered := false;
    var floors := start;
    for i := 0 to |keys|
      invariant AcceptKeys(start, keys[..i]) == Ok(floors) && ValidFloors(floors)
      invariant !recovered ==> floors == start
      invariant recovered <==> exists j :: 0 <= j < i && keys[j].Some?
    {
      assert keys[..i + 1][..i] == keys[..i];
      AcceptKeyKeepsValid(floors, keys[i]);
      if keys[i].Some? {
        var accepted := AcceptKey(floors, keys[i]);
        if accepted.Err? {
          RefusedForGood(start, keys, i + 1);
          return accepted, recovered;
        }
        floors := accepted.value;
        recovered := true;
      }
    }
    assert keys[..|keys|] == keys;
    return Ok(floors), recovered;
  }

  lemma OvertakenIsRefused(floors: Floors, key: JobKey, newer: JobKey)
    requires key.Valid() && key.rootId == newer.rootId && newer.generation > key.generation
    requires Lookup(floors, key.rootId) == Some(RecordOf(newer))
    ensures AcceptKeys(floors, KeysOf([FormatJobId(key)])) == Err(GenerationConflict)
  {
    JobIdReadsBack(key);
    KeysOfAt([FormatJobId(key)], 0);
    var keys := KeysOf([FormatJobId(key)]);
    assert keys[..0] == [] && keys == [Some(key)];
    assert AcceptKeys(floors, []) == Ok(floors);
  }

  /** A run in which startup refuses a job that is fine: its commit leaves the directory for cleanup, a
      later generation of its root is accepted, and power is lost. Recovery then finds the first job
      committed, and the start fails with nothing changed on disk. Nothing but the power loss has to go
      wrong: with acceptable generations that fit the file the run always ends so. */
  method CleanupPendingThenNewer(s: Service, key: JobKey, newer: JobKey)
    returns (committed: bool, overtaken: bool, started: Outcome)
    requires s.Valid() && s.up && s.active.None?
    requires key.Valid() && newer.Valid() && key.rootId == newer.rootId && newer.generation > key.generation
    modifies s, s.store, s.store.file
    ensures s.Valid()
    ensures committed ==> Started(key.rootId, RecordOf(key)) in s.commits
    ensures overtaken ==>
      && committed && !started.Done? && !s.up
      && Lookup(s.store.Persisted().value, key.rootId) == Some(RecordOf(newer))
    ensures !s.store.file.disturbed && old(Tidy(s.store.file.files) && BothStorable(s.store.codec, s.store.floors, key, newer)) ==>
      overtaken && started == Failed(GenerationConflict)
  {
    committed, overtaken, started := false, false, Done;
    var first := s.FinishPrepare(key.rootId, RecordOf(key));
    if !first.Done? { return; }
    s.StartCommit();
    committed := true;
    var second := s.FinishPrepare(newer.rootId, RecordOf(newer));
    if !second.Done? { return; }
    overtaken := true;
    s.up := false;
    OvertakenIsRefused(s.store.Persisted().value, key, newer);
    started := s.Start([FormatJobId(key)]);
  }

  /** The two records of the run are acceptable one after the other and fit the file. */
  predicate BothStorable(codec: Codec, floors: Floors, key: JobKey, newer: JobKey) {
    && Storable(codec, floors, key.rootId, RecordOf(key))
    && Storable(codec, Accept(floors, key.rootId, RecordOf(key)).value, newer.rootId, RecordOf(newer))
  }

  /** Once a job is refused the later ones do not matter. */
  lemma {:induction false} RefusedForGood(floors: Floors, keys: seq<Option<JobKey>>, n: nat)
    requires n <= |keys| && AcceptKeys(floors, keys[..n]).Err?
    ensures AcceptKeys(floors, keys) == AcceptKeys(floors, keys[..n])
    decreases |keys|
  {
    if n == |keys| {
      assert keys[..n] == keys;
    } else {
      assert keys[..|keys| - 1][..n] == keys[..n];
      RefusedForGood(floors, keys[..|keys| - 1], n);
    }
  }
}
