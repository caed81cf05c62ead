/** The client's handoff: it waits for the launcher to exit, sends Commit once, follows the job and
    restarts the launcher only on a whole set of files. */
module Handoffs {
  import opened Outcomes
  import opened Journals
  import opened Disks
  import opened FileSystems
  import opened FileSetJobs
  import opened ServiceJobs

  /** The managed files as the launcher would find them. */
  datatype Files = AllOld | AllNew | Mixed

  /** The job as the service has it. `Ended` holds what its commit worker sent; `Gone` is a service that
      stopped or restarted. */
  datatype Job = Unstarted | CommitRunning | Ended(result: Result<CommitResult>) | Gone

  /** A worker that ended so leaves such files. */
  predicate LeftBy(result: Result<CommitResult>, files: Files) {
    match CompletedFrom(result).state
    case "committed" => files == AllNew
    case "rolledBack" => files == AllOld
    case _ => true
  }

  // ---- the worker's files as the launcher finds them ----------------------------------------

  /** `files` describes `now`, a map between the old files and the new ones. */
  ghost predicate Describes(files: Files, now: Disks.Files, before: Disks.Files, after: Disks.Files) {
    match files
    case AllOld => now == before
    case AllNew => now == after
    case Mixed => now != before && now != after
  }

  /** What `ServiceJobs.CommitWorker` promises of its result is what the link below lets a commit end with:
      whatever it sent, the files it left have a description that agrees. */
  lemma WorkerEndsTruly(result: Result<CommitResult>, now: Disks.Files, before: Disks.Files, after: Disks.Files)
    requires ReportIsTrue(result, now, before, after)
    ensures exists files :: LeftBy(result, files) && Describes(files, now, before, after)
  {
    var files := if CompletedFrom(result).state == "committed" || (now == after && now != before) then AllNew
                 else if now == before then AllOld else Mixed;
    assert LeftBy(result, files) && Describes(files, now, before, after);
  }

  /** A commit on the real file system, as a step of the link: the job's end and the files it leaves. */
  method CommitOnDisk(fs: FileSystem, h: Header, ghost before: Disks.Files) returns (job: Job, ghost files: Files)
    requires Sound(fs.Contents()) && Restores(fs.Contents(), before) && ReadyToCommit(fs.Contents(), h)
    modifies fs
    ensures Describes(files, fs.targets, old(fs.targets), Applied(old(fs.targets), h, old(fs.jobs)[h.jobId].prepared))
    ensures job.Ended? || job.Gone?
    ensures job.Ended? ==> LeftBy(job.result, files)
  {
    ghost var start, after := fs.targets, Applied(fs.targets, h, fs.jobs[h.jobId].prepared);
    var result := CommitWorker(fs, h, before);
    if result.Some? {
      WorkerEndsTruly(result.value, fs.targets, start, after);
      files :| LeftBy(result.value, files) && Describes(files, fs.targets, start, after);
      job := Ended(result.value);
    } else {
      files := if fs.targets == start then AllOld else if fs.targets == after then AllNew else Mixed;
      job := Gone;
    }
  }

  /** The client's link to the service. Calls can be lost on the way there or back, and the service goes
      on by itself between them. */
  class Link {
    const olderBuild: bool
    /** No other client sends a Commit for this job. */
    const soleClient: bool
    var job: Job
    var files: Files
    ghost var commitsSent: nat
    /** Answers that did not reach the client. */
    ghost var losses: nat

    constructor (olderBuild: bool, soleClient: bool)
      ensures Valid() && job == Unstarted && files == AllOld && commitsSent == 0 && losses == 0
      ensures this.olderBuild == olderBuild && this.soleClient == soleClient
    {
      this.olderBuild, this.soleClient, job, files, commitsSent, losses := olderBuild, soleClient, Unstarted, AllOld, 0, 0;
    }

    /** What the service reports is true of the files (`WorkerEndsTruly`). */
    predicate Valid()
      reads this
    {
      match job
      case Unstarted => files == AllOld
      case Ended(result) => LeftBy(result, files)
      case CommitRunning => true
      case Gone => true
    }

    /** The job is not being committed, and nothing will start a commit. */
    predicate Settled()
      reads this
    {
      files != Mixed && job != CommitRunning
    }

    /** What the service does by itself: a running commit ends, the service can stop, and another client
        can send a Commit. */
    method GoOn()
      requires Valid()
      modifies this`job, this`files
      ensures Valid()
      ensures old(job).Ended? ==> job in {old(job), Gone} && files == old(files)
      ensures old(job) == Gone ==> job == Gone
      ensures soleClient && old(job) in {Unstarted, Gone} && old(files) == AllOld ==> job in {Unstarted, Gone} && files == AllOld
    {
      var ends: bool, result: Result<CommitResult>, stops: bool, other: bool, left: Files := *, *, *, *, *;
      if job == Unstarted && !soleClient && other { job := CommitRunning; }
      if job == CommitRunning {
        if !ends {
          files := left;
        } else if LeftBy(result, left) {
          job, files := Ended(result), left;
        }
      }
      if stops { job := Gone; }
    }

    function StatusNow(): Result<Status>
      reads this
    {
      match job
      case Unstarted => Ok(Status("prepared", 0, false, None, None))
      case CommitRunning => Ok(Status("committing", 0, false, None, None))
      case Ended(result) =>
        var status := StatusOf(CompletedFrom(result));
        Ok(if olderBuild && status.state == "failed" then status.(state := "rolledBack") else status)
      case Gone => Err(TransactionState)
    }

    /** A GetJobStatus call; the answer can be lost. */
    method GetStatus() returns (r: Result<Status>)
      requires Valid()
      modifies this`job, this`files, this`losses
      ensures Valid()
      ensures r.Ok? ==> r == StatusNow()
      ensures losses == old(losses) ==> r == StatusNow()
      ensures old(losses) <= losses
      ensures soleClient && old(job) in {Unstarted, Gone} && old(files) == AllOld ==> job in {Unstarted, Gone} && files == AllOld
      ensures old(job) == Gone ==> r.Err?
    {
      GoOn();
      var lost: bool := *;
      if lost { losses := losses + 1; }
      r := if lost then Err(TransactionIo) else StatusNow();
    }

    /** A CommitJob call: it can be refused, not arrive, or be processed with its answer lost. A call that
        was not processed when it returned is never processed later. */
    method SendCommit() returns (r: Result<Status>)
      requires Valid()
      modifies this
      ensures Valid() && commitsSent == old(commitsSent) + 1 && old(losses) <= losses
      ensures r.Ok? ==> r == StatusNow() && job == CommitRunning
    {
      GoOn();
      commitsSent := commitsSent + 1;
      var arrives: bool, lost: bool := *, *;
      if arrives && job == Unstarted {
        job := CommitRunning;
        if lost { losses := losses + 1; }
        return if lost then Err(TransactionIo) else StatusNow();
      }
      return Err(TransactionState);
    }
  }

  /** An answer on which the launcher may be restarted. */
  predicate SafeAnswer(status: Status, commitFailed: bool) {
    && status.error != Some(RecoveryIncomplete)
    && (status.state in {"committed", "rolledBack"} || (status.state == "prepared" && commitFailed))
  }

  /** `wait_for_job_completion_with`, for at most `waits` waits: it returns a status only if that status
      proves the files whole, and never sends a Commit. */
  method WaitForCompletion(link: Link, first: Result<Status>, waits: nat) returns (r: Result<Status>)
    requires link.Valid() && (first.Ok? ==> first == link.StatusNow())
    modifies link`job, link`files, link`losses
    ensures link.Valid() && old(link.losses) <= link.losses
    ensures r.Err? && link.losses == old(link.losses) && (first.Ok? || waits > 0) && link.job.Ended? ==>
      r == Err(RecoveryIncomplete) && link.job.result == Err(RecoveryIncomplete)
    ensures r.Ok? ==>
      && r == link.StatusNow() && SafeAnswer(r.value, first.Err?) && link.Settled()
      && link.files == (if r.value.state == "committed" then AllNew else AllOld)
  {
    var response := first;
    var commitResponseFailed := first.Err?;
    var wait := 0;
    while true
      invariant wait <= waits
      invariant link.Valid() && (response.Ok? ==> response == link.StatusNow()) && old(link.losses) <= link.losses
      invariant link.losses == old(link.losses) && (first.Ok? || wait > 0) ==> response == link.StatusNow()
      decreases waits - wait
    {
      if response.Ok? {
        if response.value.error == Some(RecoveryIncomplete) { return Err(RecoveryIncomplete); }
        if response.value.state in {"committed", "rolledBack"} { return response; }
        if response.value.state == "prepared" && commitResponseFailed { return response; }
        if response.value.state !in {"prepared", "committing"} { return Err(TransactionState); }
      }
      if wait == waits { return Err(TransactionState); }
      wait := wait + 1;
      response := link.GetStatus();
    }
  }

  /** `commit_after_launcher_exit`: exactly one Commit, whatever happens to its answer. */
  method CommitAfterLauncherExit(link: Link, waits: nat) returns (r: Result<Status>)
    requires link.Valid()
    modifies link
    ensures link.Valid() && link.commitsSent == old(link.commitsSent) + 1 && old(link.losses) <= link.losses
    ensures r.Err? && link.losses == old(link.losses) && waits > 0 && link.job.Ended? ==>
      r == Err(RecoveryIncomplete) && link.job.result == Err(RecoveryIncomplete)
    ensures r.Ok? ==>
      && r == link.StatusNow() && link.Settled()
      && link.files == (if r.value.state == "committed" then AllNew else AllOld)
  {
    var response := link.SendCommit();
    r := WaitForCompletion(link, response, waits);
  }

  datatype Handoff =
    | NotRestarted(code: ErrorCode)
    | RestartedBeforeCommit
    | Restarted(committed: bool)

  /** The `wait-commit-restart` sequence. At most one Commit is sent, and only after the launcher's process
      has exited. The launcher is restarted on a whole old or a whole new set; for the restart after a
      lost status this needs that no other client commits the job. If no answer is lost, a job that has ended
      after the launcher's exit keeps the launcher from being restarted only by an incomplete recovery. */
  method WaitCommitRestart(link: Link, launcherPolls: nat, waits: nat) returns (h: Handoff, launcherRunning: bool)
    requires link.Valid() && link.commitsSent == 0
    modifies link
    ensures link.Valid() && link.commitsSent <= 1
    ensures launcherRunning && h.NotRestarted? ==> link.commitsSent == 0
    ensures h.Restarted? ==> link.Settled() && link.files == (if h.committed then AllNew else AllOld)
    ensures h.RestartedBeforeCommit? ==> link.commitsSent == 0
    ensures h.RestartedBeforeCommit? && link.soleClient ==> link.files == AllOld
    ensures h.NotRestarted? || !launcherRunning
    ensures h.NotRestarted? && !launcherRunning && link.losses == old(link.losses) && waits > 0 && link.job.Ended? ==>
      h.code == RecoveryIncomplete && link.job.result == Err(RecoveryIncomplete)
  {
    launcherRunning := true;
    var status := link.GetStatus();  // before the handoff the job must be prepared
    if status.Err? { return NotRestarted(status.error), launcherRunning; }
    if status.value.state != "prepared" { return NotRestarted(TransactionState), launcherRunning; }
    for poll := 0 to launcherPolls
      invariant link.Valid() && link.commitsSent == 0 && launcherRunning && old(link.losses) <= link.losses
      invariant link.soleClient ==> link.files == AllOld && link.job in {Unstarted, Gone}
    {
      var exited: bool := *;
      if exited {
        launcherRunning := false;
        break;
      }
      status := link.GetStatus();
    }
    if launcherRunning { return NotRestarted(TransactionState), launcherRunning; }
    status := link.GetStatus();
    if status.Err? { return RestartedBeforeCommit, launcherRunning; }
    var response;
    if status.value.state == "prepared" {
      response := CommitAfterLauncherExit(link, waits);
    } else {
      response := WaitForCompletion(link, status, waits);
    }
    if response.Err? { return NotRestarted(response.error), launcherRunning; }
    return Restarted(response.value.state == "committed"), launcherRunning;
  }
}
