/** The service's one active job: how requests, the prepare worker and the commit worker move it, and
    what a status request reports. */
module ServiceJobs {
  import opened Outcomes
  import opened Journals
  import opened Disks
  import opened Transactions
  import opened FileSystems
  import opened FileSetJobs

  datatype CommitResult = CommitResult(generation: nat, cleanupPending: bool)

  /** `instance` numbers the prepared transactions in the order in which they became active. */
  datatype JobState =
    | PreparedJob(instance: nat)
    | CommittingJob(instance: nat)
    | Completed(cleanupPending: bool, error: Option<ErrorCode>, generation: Option<nat>, state: string)

  datatype ActiveJob = ActiveJob(jobId: string, ownerSid: string, state: JobState)

  /** The latest commit worker and its channel. */
  datatype Worker = NoWorker | Running(instance: nat) | Sent(result: Result<CommitResult>) | Died

  datatype Status = Status(state: string, completedOperations: nat, cleanupPending: bool, error: Option<ErrorCode>, generation: Option<nat>)

  /** What `refresh_active_job` makes of a worker's result. */
  function CompletedFrom(result: Result<CommitResult>): JobState {
    match result
    case Ok(r) => Completed(r.cleanupPending, None, Some(r.generation), "committed")
    case Err(code) => Completed(false, Some(code), None, if code == RecoveryIncomplete then "failed" else "rolledBack")
  }

  /** What `job_status_response` reports. */
  function StatusOf(state: JobState): Status {
    match state
    case PreparedJob(_) => Status("prepared", 0, false, None, None)
    case CommittingJob(_) => Status("committing", 0, false, None, None)
    case Completed(cleanupPending, error, generation, s) => Status(s, 1, cleanupPending, error, generation)
  }

  class Service {
    /** A prepare is in flight on the prepare worker. */
    var preparing: bool
    var active: Option<ActiveJob>
    /** The commit worker that was started last. */
    var worker: Worker
    /** A registry set is being applied on the service thread. */
    var applying: bool
    /** How many prepared transactions became active. */
    var issued: nat
    /** Those for which a commit was started. */
    ghost var committed: set<nat>

    constructor ()
      ensures Valid() && active.None? && !preparing && !applying
    {
      preparing, active, worker, applying, issued, committed := false, None, NoWorker, false, 0, {};
    }

    ghost predicate Valid()
      reads this
    {
      && (preparing || applying ==> active.None?)
      && !(preparing && applying)
      && (worker.Running? ==> active.Some? && active.value.state == CommittingJob(worker.instance))
      && (active.Some? && active.value.state.CommittingJob? ==>
            active.value.state.instance in committed && !worker.NoWorker? && (worker.Running? ==> worker.instance == active.value.state.instance))
      && (active.Some? && active.value.state.PreparedJob? ==>
            active.value.state.instance < issued && active.value.state.instance !in committed)
      && (forall i :: i in committed ==> i < issued)
    }

    predicate HasLiveJob()
      reads this
    {
      active.Some? && !active.value.state.Completed?
    }

    /** At most one of a prepare in flight, a prepared or committing job and a registry apply. */
    predicate Exclusive()
      reads this
    {
      && (preparing ==> !HasLiveJob() && !applying)
      && (applying ==> !HasLiveJob())
      && (worker.Running? ==> !preparing && !applying)
    }

    /** A job that a finished worker does not complete. */
    predicate StillLive()
      reads this
    {
      active.Some? && (active.value.state.PreparedJob? || (active.value.state.CommittingJob? && worker.Running?))
    }

    /** What a status request says about the job and its worker. */
    predicate Reported(status: Status)
      reads this
    {
      active.Some? &&
      match active.value.state
      case PreparedJob(_) => status == Status("prepared", 0, false, None, None)
      case Completed(cleanupPending, error, generation, s) => status == Status(s, 1, cleanupPending, error, generation)
      case CommittingJob(_) =>
        match worker
        case Running(_) => status == Status("committing", 0, false, None, None)
        case Sent(Ok(c)) => status == Status("committed", 1, c.cleanupPending, None, Some(c.generation))
        case Sent(Err(code)) =>
          status == Status(if code == RecoveryIncomplete then "failed" else "rolledBack", 1, false, Some(code), None)
        case Died => status == Status("failed", 1, false, Some(RecoveryIncomplete), None)
        case NoWorker => false
    }

    lemma ValidIsExclusive()
      requires Valid()
      ensures Exclusive()
      ensures worker.Running? ==> HasLiveJob() && active.value.state.CommittingJob?
    {}

    /** `refresh_active_job`: only a finished worker changes anything, and then only a committing job. */
    method RefreshActiveJob()
      requires Valid()
      modifies this`active
      ensures Valid()
      ensures old(active).None? || !old(active).value.state.CommittingJob? || worker.Running? ==> active == old(active)
      ensures old(active).Some? && old(active).value.state.CommittingJob? && !worker.Running? ==>
        active == Some(old(active).value.(state :=
          if worker.Sent? then CompletedFrom(worker.result) else CompletedFrom(Err(RecoveryIncomplete))))
    {
      if active.None? || !active.value.state.CommittingJob? { return; }
      match worker {
        case Sent(result) => active := Some(active.value.(state := CompletedFrom(result)));
        case Died => active := Some(active.value.(state := CompletedFrom(Err(RecoveryIncomplete))));
        case Running(_) =>
        case NoWorker =>
      }
    }

    /** `authorize_owned_job`. */
    predicate Owns(jobId: string, sid: string)
      reads this
    {
      active.Some? && active.value.jobId == jobId && active.value.ownerSid == sid
    }

    /** A PrepareFileSet request up to the dispatch of its worker. `verified` says that the caller, the
        manifest and the keyring passed every check, and `spawned` that the worker could be started. */
    method RequestPrepare(authorized: bool, verified: bool, spawned: bool) returns (r: Outcome)
      requires Valid() && !applying
      modifies this`preparing, this`active
      ensures Valid() && Exclusive()
      ensures r.Done? <==> !old(preparing) && authorized && verified && spawned && !old(StillLive())
      ensures r.Done? ==> !old(preparing) && preparing && active.None?
      ensures old(StillLive()) && !old(preparing) && authorized ==> r == Failed(TransactionConflict)
      ensures old(preparing) ==> r == Failed(ServiceBusy) && active == old(active)
      ensures !r.Done? ==> preparing == old(preparing)
      ensures old(HasLiveJob()) && worker.Running? ==> !r.Done? && active == old(active)
      ensures !authorized && (old(active).None? || !old(active).value.state.CommittingJob?) ==> active == old(active)
    {
      if preparing { return Failed(ServiceBusy); }
      RefreshActiveJob();
      if !authorized { return Failed(RootUnauthorized); }
      if active.Some? && active.value.state.Completed? { active := None; }
      if active.Some? { return Failed(TransactionConflict); }
      if !verified { return Failed(GenerationConflict); }
      if !spawned { return Failed(TransactionState); }
      preparing := true;
      r := Done;
    }

    /** The prepare worker's result arrives; `saved` says that its generation could be saved. The result
        never replaces a job: none is active. */
    method FinishPrepare(prepared: Option<string>, ownerSid: string, saved: bool) returns (r: Outcome)
      requires Valid() && preparing
      modifies this`preparing, this`active, this`issued
      ensures Valid() && !preparing && old(active).None?
      ensures r.Done? <==> prepared.Some? && saved
      ensures r.Done? ==> active == Some(ActiveJob(prepared.value, ownerSid, PreparedJob(old(issued)))) && issued == old(issued) + 1
      ensures !r.Done? ==> active.None? && issued == old(issued)
    {
      preparing := false;
      if prepared.None? || !saved { return Failed(TransactionState); }
      active := Some(ActiveJob(prepared.value, ownerSid, PreparedJob(issued)));
      issued := issued + 1;
      r := Done;
    }

    /** A CommitJob request. A commit starts only for a prepared job of the caller, at most once per
        prepared transaction; a worker that cannot be started leaves the job prepared. */
    method RequestCommit(jobId: string, sid: string, stopRequested: bool, spawned: bool) returns (r: Outcome)
      requires Valid() && !applying
      modifies this`active, this`worker, this`committed
      ensures Valid() && preparing == old(preparing)
      ensures r.Done? <==>
        && !preparing && old(Owns(jobId, sid)) && !stopRequested && spawned
        && old(active).value.state.PreparedJob?
      ensures r.Done? ==>
        && !preparing && !stopRequested
        && old(active).Some? && old(Owns(jobId, sid)) && old(active).value.state.PreparedJob?
        && var instance := old(active).value.state.instance;
           && instance !in old(committed) && committed == old(committed) + {instance}
           && active == Some(old(active).value.(state := CommittingJob(instance)))
           && worker == Running(instance)
      ensures !r.Done? ==> worker == old(worker) && committed == old(committed)
      ensures !r.Done? && old(active).Some? && !old(active).value.state.CommittingJob? ==> active == old(active)
    {
      if preparing { return Failed(ServiceBusy); }
      RefreshActiveJob();
      if !Owns(jobId, sid) { return Failed(RootUnauthorized); }
      if stopRequested { return Failed(TransactionState); }
      var job := active.value;
      if !job.state.PreparedJob? { return Failed(TransactionState); }
      if !spawned { return Failed(TransactionState); }
      worker := Running(job.state.instance);
      committed := committed + {job.state.instance};
      active := Some(job.(state := CommittingJob(job.state.instance)));
      r := Done;
    }

    /** The commit worker ends, with a result or by a panic. */
    method WorkerEnds(result: Option<Result<CommitResult>>)
      requires Valid() && worker.Running?
      modifies this`worker
      ensures Valid() && worker == (if result.Some? then Sent(result.value) else Died)
    {
      worker := if result.Some? then Sent(result.value) else Died;
    }

    /** An ApplyRegistrySet request up to the first change of a value. */
    method BeginApply(authorized: bool, stopRequested: bool, verified: bool) returns (r: Outcome)
      requires Valid() && !applying
      modifies this`active, this`applying
      ensures Valid() && Exclusive()
      ensures r.Done? <==> !preparing && authorized && !old(StillLive()) && !stopRequested && verified
      ensures r.Done? ==> applying && !preparing && active.None? && !worker.Running? && !stopRequested
      ensures !r.Done? ==> !applying
      ensures old(preparing) ==> r == Failed(ServiceBusy) && active == old(active)
    {
      if preparing { return Failed(ServiceBusy); }
      RefreshActiveJob();
      if !authorized { return Failed(RootUnauthorized); }
      if active.Some? && active.value.state.Completed? { active := None; }
      if active.Some? || stopRequested { return Failed(ServiceBusy); }
      if !verified { return Failed(GenerationConflict); }
      applying := true;
      r := Done;
    }

    method EndApply()
      requires Valid() && applying
      modifies this`applying
      ensures Valid() && !applying && active.None?
    {
      applying := false;
    }

    /** A GetJobStatus request: a completed status repeats unchanged, whatever else was asked between. */
    method RequestStatus(jobId: string, sid: string) returns (r: Result<Status>)
      requires Valid()
      modifies this`active
      ensures Valid()
      ensures r.Ok? <==> old(Owns(jobId, sid))
      ensures r.Ok? ==> active.Some? && r.value == StatusOf(active.value.state) && old(Reported(r.value))
      ensures old(active).Some? && old(active).value.state.Completed? ==> active == old(active)
      ensures r.Ok? && r.value.state in {"committed", "rolledBack", "failed"} ==> !worker.Running?
    {
      RefreshActiveJob();
      if !Owns(jobId, sid) { return Err(RootUnauthorized); }
      RefreshActiveJob();
      return Ok(StatusOf(active.value.state));
    }
  }

  // ---- whole request sequences ------------------------------------------------------------

  datatype Event =
    | AsksPrepare(authorized: bool, verified: bool, spawned: bool)
    | PrepareEnds(prepared: Option<string>, ownerSid: string, saved: bool)
    | AsksCommit(jobId: string, sid: string, stopRequested: bool, spawned: bool)
    | CommitEnds(result: Option<Result<CommitResult>>)
    | AsksApply(authorized: bool, stopRequested: bool, verified: bool)
    | AsksStatus(jobId: string, sid: string)

  /** One event. Events that cannot happen in the state are passed over. `started` is the prepared
      transaction whose commit the event started, if it did. */
  method Handle(s: Service, e: Event) returns (ghost started: Option<nat>)
    requires s.Valid() && !s.applying
    modifies s
    ensures s.Valid() && s.Exclusive() && !s.applying
    ensures started.Some? ==> started.value !in old(s.committed) && s.committed == old(s.committed) + {started.value}
    ensures started.None? ==> s.committed == old(s.committed)
    ensures !e.AsksPrepare? && !e.AsksApply? && old(s.active).Some? && old(s.active).value.state.Completed? ==>
      s.active == old(s.active)
  {
    started := None;
    match e {
      case AsksPrepare(authorized, verified, spawned) =>
        var r := s.RequestPrepare(authorized, verified, spawned);
      case PrepareEnds(prepared, ownerSid, saved) =>
        if s.preparing { var r := s.FinishPrepare(prepared, ownerSid, saved); }
      case AsksCommit(jobId, sid, stopRequested, spawned) =>
        var r := s.RequestCommit(jobId, sid, stopRequested, spawned);
        if r.Done? { started := Some(s.worker.instance); }
      case CommitEnds(result) =>
        if s.worker.Running? { s.WorkerEnds(result); }
      case AsksApply(authorized, stopRequested, verified) =>
        var r := s.BeginApply(authorized, stopRequested, verified);
        if r.Done? { s.EndApply(); }
      case AsksStatus(jobId, sid) =>
        var r := s.RequestStatus(jobId, sid);
    }
  }

  /** Over any sequence of requests and worker results no two mutations overlap, and no prepared
      transaction is committed twice: the started commits have pairwise different numbers. */
  method Run(s: Service, events: seq<Event>) returns (ghost commits: seq<nat>)
    requires s.Valid() && !s.applying && s.committed == {}
    modifies s
    ensures s.Valid() && s.Exclusive() && !s.applying
    ensures forall i, j :: 0 <= i < j < |commits| ==> commits[i] != commits[j]
    ensures forall i :: i in s.committed <==> i in commits
  {
    commits := [];
    s.ValidIsExclusive();
    for i := 0 to |events|
      invariant s.Valid() && s.Exclusive() && !s.applying
      invariant forall i, j :: 0 <= i < j < |commits| ==> commits[i] != commits[j]
      invariant forall i :: i in s.committed <==> i in commits
    {
      ghost var started := Handle(s, events[i]);
      if started.Some? { commits := commits + [started.value]; }
    }
  }

  // ---- what the reported state says about the files ----------------------------------------

  /** The state that is reported for this result is true of the files: "committed" means that all are new,
      "rolledBack" that none changed. */
  ghost predicate ReportIsTrue(result: Result<CommitResult>, now: Files, before: Files, after: Files) {
    && (CompletedFrom(result).state == "committed" ==> now == after)
    && (CompletedFrom(result).state == "rolledBack" ==> now == before)
  }

  /** The commit worker: the state that the client will be told is true of the files. */
  method CommitWorker(fs: FileSystem, h: Header, ghost before: Files) returns (result: Option<Result<CommitResult>>)
    requires Sound(fs.Contents()) && Restores(fs.Contents(), before) && ReadyToCommit(fs.Contents(), h)
    modifies fs
    ensures AllOrNothing(fs.Contents(), h.jobId, before, Applied(before, h, old(fs.jobs)[h.jobId].prepared))
    ensures result.Some? ==>
      && ReportIsTrue(result.value, fs.targets, old(fs.targets), Applied(old(fs.targets), h, old(fs.jobs)[h.jobId].prepared))
      && (CompletedFrom(result.value).state in {"rolledBack", "failed"} ==> Restores(fs.Contents(), before))
    ensures fs.faults == old(fs.faults) ==>
      && result.Some?
      && CompletedFrom(result.value).state ==
         (if SnapshotsMatch(h, old(fs.targets)) && PayloadComplete(h, old(fs.jobs)[h.jobId].prepared) then "committed" else "rolledBack")
    ensures fs.faults == old(fs.faults) && !SnapshotsMatch(h, old(fs.targets)) ==>
      CompletedFrom(result.value) == Completed(false, Some(RootIdentity), None, "rolledBack") && fs.targets == old(fs.targets)
    ensures fs.faults == old(fs.faults) + 1 && fs.lastError != RecoveryIncomplete ==>
      PayloadComplete(h, old(fs.jobs)[h.jobId].prepared) && result.Some? ==> CompletedFrom(result.value).state != "failed"
  {
    var r := CommitFileSet(fs, h, before);
    match r {
      case CommitOk(cleanupPending) => result := Some(Ok(CommitResult(h.generation, cleanupPending)));
      case CommitErr(code) => result := Some(Err(code));
      case Interrupted => result := None;
    }
  }
}
