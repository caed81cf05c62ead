# Verified model of the SE7EN maintenance service

The service updates files below registered roots, sets registry values and replaces its own executable, and
promises that a power loss at any moment leaves a whole old or a whole new state. This project models that
behaviour in Dafny and proves it.

* `Outcomes`, `Text`, `JobIds`, `FileSets` - error codes and faults, text, identifiers, signed manifests.
* `Journals`, `JournalBytes` - the transaction journal as records and as bytes.
* `Disks`, `Transactions`, `FileSystems`, `FileSetJobs`, `FileSetPreparation`, `FaultModel`, `DirectUpdate` - the
  file-set transaction. `FileSystem` has one method per primitive, and each draws a fault: it can fail or lose
  power before or after its effect. The central notion is `Disks.Restores(d, goal)`: a completed recovery from
  `d` leaves exactly `goal`. Every primitive keeps it; only the durable Committed record changes it.
* `ProtectedFiles`, `Generations`, `GenerationRuns`, `ServiceStarts`, `RegistrySets`, `RegistryRollbacks`,
  `RegistryTransactions` - the files that the service keeps about itself, the generation floors, the start of the
  service and the registry transaction.
* `ServiceUpgrades`, `ServiceInstallations` - releases and the installer's resumable upgrade.
* `PipeServers`, `StopHandshakes`, `ServiceJobs`, `Handoffs` - the running service and its client.
* `JsonTexts`, `CanonicalJson`, `Calendar`, `ServiceLogs` - canonical JSON and the log.

The classes follow the objects that the program updates in place; their methods are the program's steps and are
stated against functions and predicates on values. `FileSystem.faults` counts the drawn faults and
`disturbed` in the other classes says that one was drawn, so contracts can say what happens without one. The
constants `lossOnly` and `healthy` restrict an object's faults to power losses.

## What the code does not do

Some properties fail. Each is kept as the code has it, with the exact condition under which it holds.

* A registry apply whose generation or marker cannot be saved rolls back in three steps, each whatever the others
  reported. That keeps all or nothing if and only if the faults do not strand the values
  (`RegistryRollbacks.Strands`, `RegistryRollbacks.LateRollbackExactly`). It fails if the restore fails between two
  values and the journal is removed all the same (`RegistryRollbacks.FailedRestoreLosesSnapshots`), and if the
  marker write reported failure but is what recovery reads and power is lost before or between the restored
  values (`RegistryRollbacks.LossUnderDurableMarker`, `RegistryRollbacks.LossAfterFloorsUnderDurableMarker`). Where
  steps only lose power, it always holds (`RegistryTransactions.ApplyRegistrySet`).
* Without faults startup fails exactly if recovery finds a committed job that does not follow the floor of its root
  left by the jobs before it (`GenerationRuns.Service.Start`, `GenerationRuns.StartupAcceptsJobs`); for real commits, exactly if a later generation overtook one
  (`GenerationRuns.StartupAcceptsCommits`, and a run in `GenerationRuns.CleanupPendingThenNewer`).
* A service rollback can be completed by a later attempt exactly if the previous executable is still there. After
  it was moved back, the next attempt deletes it (`ServiceInstallations.Installation.Execute`,
  `ServiceInstallations.Installation.RestoreThenRetry`). An interrupted first installation is refused once the SCM
  entry exists (`ServiceInstallations.WhenResumeIsAdmitted`).
* A rollback of an upgrade leaves the staged candidate behind exactly if the run was resumed after its switch
  (`ServiceInstallations.Installation.Execute`). Another bundle can then be installed exactly if no candidate is there
  or its bytes are that bundle's (`ServiceInstallations.RolledBackIsReady`, and a run in
  `ServiceInstallations.Installation.RollBackThenOther`).
* The service loop can exit while a commit runs, exactly in runs with one of three interleavings
  (`StopHandshakes.ExposingStep`, `StopHandshakes.ExitsExactlyByExposure`, `StopHandshakes.EveryExposureHappens`).
* A second recovery refuses a journal to which a record was appended after torn bytes
  (`Journals.RollbackMarkerIsReadable`).

## Model

| member | source | states |
|---|---|---|
| FileSetPreparation.UpdateFiles | src/transaction.rs:336-610 | Prepare, commit and recovery after any number of power losses: at every stop a completed recovery would leave the old files or the update that the manifest means: each named file with its own staged and signed bytes, each removed path gone, every other file as before. The report of the completing recovery says which |
| FileSetPreparation.AppliedIsTheManifest | src/transaction.rs:425-466 | Applying a job built from a manifest puts each path's own bytes at that path, removes the removed ones and touches no other |
| FileSetJobs.CommitFileSet | src/transaction.rs:485-523 | Wherever a failure or power loss falls, recovery leaves all old or all new files, new exactly when Committed is durable; paths outside the job never change; Ok means all new, an error other than RecoveryIncomplete that nothing changed; without faults it succeeds, or refuses a changed target with RootIdentity and nothing touched, or undoes a job with a missing payload; one fault alone is rolled back and reported with the failed step's code |
| FileSetJobs.RecoverIncomplete | src/transaction.rs:530-610 | For any set of jobs and any fault: recovery keeps what it will leave; a completed run has put every file there and removed every job, and reports a job as committed exactly if its last record is Committed, as rolled back exactly if it is Committing or RollingBack, and as discarded otherwise; it completes only if every journal can be read, and then always without faults; with whole-record appends it can always be restarted if no journal of a Committing job ends in torn bytes |
| FileSetJobs.RecoverUntilDone | src/transaction.rs:530-610 | Any number of interrupted recoveries before the one that completes lead to the same files, and none of them turns an unfinished job into a committed one or back |
| FileSetJobs.RecoverJob | src/transaction.rs:541-607 | One job directory: no journal, the four states, a foreign job ID, a missing root; other jobs are untouched |
| FileSetJobs.ApplyEntries | src/transaction.rs:657-724 | The apply loop stops only between old and new, keeps recovery at every stop and makes every path new if it completes |
| FileSetJobs.RollbackEntries | src/transaction.rs:726-812 | The rollback loop, last entry first, decides from `original` and the backup alone and leaves every path as recovery promised |
| FileSetJobs.RollbackEntry | src/transaction.rs:731-810 | One round of the rollback in both replacement modes |
| FileSetJobs.AbandonCommit | src/transaction.rs:493-513 | A commit that cannot finish puts every path back or reports RecoveryIncomplete and leaves the job to recovery |
| FileSetJobs.VerifySnapshots | src/transaction.rs:641-655 | The targets are checked against the prepared snapshots before Committing is recorded; a changed one is refused with RootIdentity |
| FileSetJobs.MarkCommitted | src/transaction.rs:873-883 | The commit point: until this record is durable recovery leaves the old files, from then on the new ones |
| Transactions.CommittedIsTheSwitch | src/transaction.rs:503-508 | The durable Committed record is the one step that changes what recovery leaves, from old to new for all entries at once |
| Transactions.CommittingKeepsRecovery | src/transaction.rs:488-492 | Recording Committing after the snapshot check does not change what recovery leaves |
| Disks.RestoresIsUnique | src/transaction.rs:726-812 | What a completed recovery leaves is determined by the disk |
| Disks.RecoveryHasOneResult | src/transaction.rs:530-610 | Every sound disk, whatever jobs it holds, has exactly one result of recovery |
| Disks.CleanupKeepsRecovery | src/transaction.rs:1270-1285 | Cleanup interrupted anywhere, even with part of the reserved files gone, never changes what recovery leaves |
| Disks.BackUpKeepsRecovery | src/transaction.rs:1170-1193 | Moving the original to its backup keeps what recovery leaves |
| Disks.BringBackKeepsRecovery | src/transaction.rs:1248-1268 | Bringing a backup back keeps what recovery leaves |
| FileSystems.FileSystem.AppendState | src/transaction.rs:873-896 | What an append leaves: the record, nothing after a failure, or part of the record after a power loss |
| FileSystems.FileSystem.RenameTargetToBackup | src/transaction.rs:1170-1193 | The primitive refuses a changed target and an existing backup, and changes nothing else |
| FileSystems.FileSystem.CleanupJob | src/transaction.rs:1270-1285 | The reserved files go before the journal |
| FaultModel.LyingAppendLosesAFile | src/transaction.rs:503-513 | If an append could report failure and yet be durable, a power loss during the following rollback would leave neither old nor new |
| FaultModel.OverlappingJobsHaveNoResult | src/windows.rs:4136-4147 | Two unfinished jobs on one path that would leave different files have no common result, so at most one may touch a path |
| FaultModel.CutShortNewJournal | src/transaction.rs:854-871 | A new journal whose first record was cut short is readable exactly when only the newline is missing |
| FaultModel.TornMarkerBlocksRestart | src/transaction.rs:595-599 | A torn RollingBack record is read once; a record appended after it is never read back |
| FileSetPreparation.PrepareFileSet | src/transaction.rs:336-408 | Prepare never touches a target; without faults its result is decided by the product, the job directory and the staging directory, each refusal with its own code and no job left; on success the job means the manifest's update of the files |
| FileSetPreparation.BuiltHeaderIsValid | src/transaction.rs:425-466 | A header built from any verified manifest passes the reader: paths distinct ignoring case, indexes distinct over both loops, payload and backup numbers equal |
| FileSets.ValidateFileSet | src/file_set.rs:130-189 | Accepts exactly the manifests with valid, pairwise distinct paths (ignoring case, over both lists), well-formed hashes and a declared size within the bound; each refusal has the error of its check |
| FileSets.CheckedMeansValidAndDistinct | src/file_set.rs:159-187 | Checking each path against a growing set is the pairwise property |
| FileSets.AcceptedPathStaysBelow | src/file_set.rs:191-235 | An accepted path leads where it says: it never leaves the root, enters the reserved directory, names a drive, stream or device, or changes when Windows drops trailing dots and spaces |
| Journals.ReadJournal | src/transaction.rs:923-949 | Accepts exactly the readable journals and returns the last record; a bad path is reported as such |
| Journals.ValidateHeader | src/transaction.rs:952-983 | One pass with three growing sets accepts exactly the headers with pairwise distinct paths and indexes |
| Journals.LegalExtension | src/transaction.rs:985-1001 | The accepted record sequences are exactly the non-empty prefixes of Prepared, Committing, then Committed or RollingBack |
| Journals.AppendStaysReadable | src/transaction.rs:873-950 | After an append the journal is readable exactly if it had no torn bytes and the transition is allowed |
| Journals.RollbackMarkerIsReadable | src/transaction.rs:595-599 | Recovery of a Committing job can be restarted after its RollingBack record exactly if the journal had no torn bytes |
| JournalBytes.ReadJournalBytes | src/transaction.rs:898-950 | Over any bytes: split at newlines, empty lines skipped, torn last line tolerated; accepts exactly the journals whose view is readable and within the bound |
| JournalBytes.AppendedBytes | src/transaction.rs:873-896 | Appending a record to the bytes is appending to the view, also after torn bytes |
| JournalBytes.TornBytes | src/transaction.rs:934-934 | A record cut short anywhere is a torn tail, or a record without its newline |
| JournalBytes.TornRecordIsTolerated | src/transaction.rs:898-950 | A whole header, any legal records and any part of one more are read back as the last whole record |
| DirectUpdate.CommitDirectUpdate | src/windows/direct_update.rs:370-383 | With atomic replacement no existing name is ever missing and each holds old or new bytes, whatever happens; Ok means all new, an error other than RecoveryIncomplete means all old and nothing to recover; without faults an unchanged directory is updated |
| DirectUpdate.DirectUpdateAcrossRestarts | src/windows/direct_update.rs:305-383 | The same through any number of interrupted recoveries after the commit: no name is missing at any stop, and in the end all files are old or all are the manifest's, as the commit reported |
| DirectUpdate.CancelDirectUpdate | src/windows/direct_update.rs:385-389 | Cancelling a prepared update never touches a file and leaves no job |
| DirectUpdate.ValidatePlan | src/windows/direct_update.rs:133-164 | Accepts exactly the plans that name the launcher once, remove nothing, use allowed paths and stay within the bounds |
| DirectUpdate.PlaceAllowedMeans | src/windows/direct_update.rs:63-85 | The allowed places: the launcher and libraries beside it, and below 7launcher/resources anything but executables |
| DirectUpdate.LauncherIsManaged | src/windows/direct_update.rs:133-164 | The launcher is one of the replaced files |
| DirectUpdate.PlanKeepsNames | src/windows/direct_update.rs:133-164 | The new files have every old name |
| FileSystems.FileSystem.AtomicReplaceTarget | src/windows/direct_update.rs:558-598 | ReplaceFileW with a backup name, or a move where no target exists, as one step |
| FileSystems.FileSystem.AtomicRestoreBackup | src/windows/direct_update.rs:599-626 | The restore that overwrites the target in one step |
| JobIds.JobIdReadsBack | src/transaction.rs:369-374 | Formatting then reading gives back every valid root ID, generation and digest, within the length bound, even if the root ID ends with a dash |
| JobIds.JobIdsAreExactlyTheFormattedKeys | src/windows.rs:4519-4532 | Reading accepts exactly the formatted keys, and each for one key |
| Text.DecodeLowerHex | src/lib.rs:311-325 | The pair-by-pair decoder accepts exactly the lower-case numerals of the right length and inverts the encoder |
| Text.EncodedByte | src/transaction.rs:1510-1512 | Each byte is two lower-case digits, the high one first |
| Text.SameIgnoringCase | src/file_set.rs:159-187 | Names fold together exactly if they differ in the case of ASCII letters at most |
| ProtectedFiles.ProtectedFile.Replace | src/windows.rs:4548-4606 | A fault anywhere leaves a state from which recovery gives the old or the new content; a first creation can leave part of it only if the temporary write was hit; three files never exist together |
| ProtectedFiles.ProtectedFile.Recover | src/windows.rs:4608-4659 | Each of the eight cases keeps what recovery gives at every step; a completed run leaves that content and nothing beside it |
| ProtectedFiles.ProtectedFile.ReplaceAcrossCrashes | src/windows.rs:4548-4659 | A replacement followed by any number of interrupted recoveries gives exactly old or exactly new for an existing file |
| ProtectedFiles.SwitchIsTheBackupRename | src/windows.rs:4580-4600 | Replacing an existing file switches when the old file is renamed to its backup, not when the new one is renamed |
| RegistryTransactions.ApplyRegistrySet | src/windows.rs:4280-4363 | Every value is old or new; recovery leaves all old, or all new with their generation on disk, unless a late rollback ran, and then exactly unless its faults strand the values; if steps only lose power it always does; reports are true; without a fault an applicable set is applied |
| RegistryTransactions.ApplyAcrossRestarts | src/windows.rs:4280-4363 | The same after any number of interrupted recoveries: a completed one leaves all old or all new exactly unless the faults of a late rollback stranded the values, which power losses alone never do |
| RegistryTransactions.CommitValues | src/windows.rs:4302-4353 | Generation before marker before removal; a late rollback after either failure keeps all or nothing exactly unless its faults strand the values |
| RegistryTransactions.UndoLate | src/windows.rs:4317-4330 | The late rollback runs all its steps whatever they report: its end is the function LateRollback of the faults it drew |
| RegistryRollbacks.LateRollbackExactly | src/windows.rs:4317-4353 | For every schedule of faults and every state of the marker write, the late rollback keeps all or nothing if and only if the faults do not strand the values: the snapshots lost to the next start, a changed value left new, and another one old again or the floor not on disk |
| RegistryRollbacks.LateRollbackValues | src/windows.rs:4317-4353 | Each value is old or new after any late rollback; one that reports success has put every value back for good; without the snapshots the next start keeps what it left |
| RegistryRollbacks.FailedRestoreLosesSnapshots | src/windows.rs:4317-4330 | First failing schedule: the restore fails between two changed values and the journal is removed all the same |
| RegistryRollbacks.LossUnderDurableMarker | src/windows.rs:4333-4353 | Second failing schedule: the marker write reported failure but is what recovery reads, and power is lost between two restored values |
| RegistryRollbacks.LossAfterFloorsUnderDurableMarker | src/windows.rs:4333-4353 | Third failing schedule: the same marker, and power is lost after the floors were put back and before any value was |
| RegistrySets.RegistryStore.Recover | src/windows.rs:3230-3249 | Startup recovery restores the snapshots of a Prepared journal, keeps the values of a Committed one, and can be interrupted anywhere |
| RegistrySets.RegistryStore.RestoreValues | src/windows.rs:3072-3103 | The restore loop, last value first, leads to the snapshots from wherever it stops |
| GenerationRuns.Service.Run | src/windows.rs:3528-3583 | Over any prepares, commits, power losses and starts no persisted generation number goes down or changes its digest, and the commits of each root have non-decreasing generations |
| GenerationRuns.Service.FinishPrepare | src/windows.rs:3877-3892 | A job becomes active only after its generation is on disk; an acceptable generation that fits the file is stored unless a fault occurs, and no other is |
| GenerationRuns.Service.Start | src/windows.rs:3528-3583 | Without faults a start succeeds exactly if the committed jobs that recovery found are accepted, as long as the floors fit their file; a refused one changes nothing on disk |
| GenerationRuns.Service.StartCommit | src/windows.rs:4202-4259 | Every commit starts with its generation on disk |
| GenerationRuns.StartupAcceptsJobs | src/windows.rs:3562-3571 | Startup accepts a list of committed jobs exactly if each follows the floor that the floors on disk and the jobs before it leave for its root |
| GenerationRuns.StartupAcceptsCommits | src/windows.rs:3562-3571 | If the found jobs are commits that were really started, startup accepts them exactly if none was overtaken by a later generation of its root |
| GenerationRuns.CleanupPendingThenNewer | src/windows.rs:3562-3571 | The failing run: a commit left for cleanup, a later generation of its root, a power loss; without any other fault the start then always fails |
| ServiceStarts.StartService | src/windows.rs:3528-3583 | File-set recovery and the floors that its report raises: a floor moves only to the generation of a job whose Committed record was found, and after a start the floors cover every such job |
| ServiceStarts.UpdateAndStart | src/windows.rs:3552-3571 | A floor that moves after an update is the manifest's root's, moves to the manifest's generation, and then the manifest is what is installed |
| Generations.Accept | src/windows.rs:3330-3354 | A record is accepted exactly if it does not go back or reuse a generation |
| Generations.VerifyGeneration | src/file_set.rs:112-125 | The manifest check and the floor agree on the order |
| Generations.GenerationStore.Save | src/windows.rs:3356-3376 | A later start reads the saved floors or the ones before, and after success the saved ones |
| ServiceInstallations.Installation.EnsureAcrossCrashes | src/windows_upgrade.rs:144-286 | Attempts, failures and power losses until one completes or rolls back: the machine stays resumable, a completed attempt leaves the candidate live, no previous executable, its release record and no journal; a rollback stops only in the states listed for it, and never happens if steps only lose power and the candidate answers with its version |
| ServiceInstallations.Installation.EnsureThroughRollbacks | src/windows_upgrade.rs:144-286 | The same with attempts after rollbacks, completed or interrupted, in any number: the machine stays resumable, rolling back, or without the old executable |
| ServiceInstallations.Installation.Ensure | src/windows_upgrade.rs:144-286 | One run from any state that earlier attempts or rollbacks left, or with another bundle's candidate in the way; a downgrade and any bundle that may not follow the installed release is refused with nothing changed; where it can stop, when it must succeed, that a rollback needs a failed health check |
| ServiceInstallations.Installation.Execute | src/service_upgrade.rs:153-201 | The loop over the four persisted phases; entered again after an interrupted rollback, without faults it completes that rollback if it can, and with the old executable already moved back it deletes it and ends in RecoveryIncomplete; a rollback of an upgrade leaves the staged candidate behind exactly if the run was resumed after its switch |
| ServiceInstallations.OldIsInExactlyOnePlace | src/windows_upgrade.rs:1171-1245 | Until the candidate's release is recorded the old executable is in its place or retained, never both and never neither |
| ServiceInstallations.Installation.ActivateBinary | src/windows_upgrade.rs:1171-1245 | Activation can be repeated from every state it can stop in |
| ServiceInstallations.Installation.FinalizeUpgrade | src/windows_upgrade.rs:938-947 | The previous executable goes only after the release record names the candidate |
| ServiceInstallations.Installation.StageCandidate | src/windows_upgrade.rs:1076-1146 | The candidate path holds nothing or the verified bytes; other bytes there are refused |
| ServiceInstallations.Installation.RestorePrevious | src/windows_upgrade.rs:1252-1280 | Restoring succeeds, without faults, exactly if there is a previous executable, and otherwise leaves none |
| ServiceInstallations.Installation.RollBackUpgrade | src/windows_upgrade.rs:907-920 | Every state it can stop in; without faults it restores the old executable exactly if the previous one is present, and it succeeds if the old service answers with its version |
| ServiceInstallations.Installation.HandleUnhealthy | src/service_upgrade.rs:168-187 | The rollback branch from every state in which a rollback can have stopped: it completes only if it can, and loses the old executable only from the torn state |
| ServiceInstallations.Installation.RestoreThenRetry | src/windows_upgrade.rs:907-920 | The failing run: a rollback loses power after moving the old executable back, and the next attempt, without any fault, leaves neither executable and reports RecoveryIncomplete |
| ServiceInstallations.RolledBackIsReady | src/windows_upgrade.rs:144-286 | After a completed rollback the same bundle can be tried again, and another one exactly if no candidate was left behind or its bytes are the other's |
| ServiceInstallations.Installation.RollBackThenOther | src/windows_upgrade.rs:1076-1100 | The failing run: an upgrade resumed after its switch is unhealthy and rolls back completely, and the next bundle is refused because of the candidate left behind |
| ServiceInstallations.WhenResumeIsAdmitted | src/windows_upgrade.rs:160-165 | An interrupted upgrade is always admitted again; an interrupted first installation is refused from the creation of the SCM entry until the release record is written |
| ServiceUpgrades.ReleasesNeverGoBack | src/service_upgrade.rs:203-243 | Over any chain of accepted releases the number of the version never goes back and one version never names two digests |
| ServiceUpgrades.DecidesByWeight | src/service_upgrade.rs:203-243 | With the version as one number, major digit first: a greater one is an upgrade, a smaller one is refused, and for the same one the digest decides |
| ServiceUpgrades.OrderIsByWeight | src/service_upgrade.rs:20-25 | The derived order of versions is the order of these numbers |
| ServiceUpgrades.VersionTextIsCanonical | src/service_upgrade.rs:28-70 | A version text is accepted exactly if it is the display form of the version it denotes |
| PipeServers.PipeServer.NextEvent | src/windows_pipe.rs:461-525 | A slot is Held exactly when its request is queued once or handed out once; queued requests are handed out first in order; Idle only with every slot listening, nothing unanswered and the timeout passed since the last activity |
| PipeServers.PipeServer.Respond | src/windows_pipe.rs:440-452 | An answered slot listens again and its request is gone |
| PipeServers.PipeServer.ExpireReads | src/windows_pipe.rs:528-544 | Exactly the clients whose deadline has passed are disconnected; every other slot keeps its phase, and conservation holds |
| PipeServers.PipeServer.Create | src/windows_pipe.rs:390-413 | Every instance listens at the start |
| PipeServers.Instance.Listen | src/windows_pipe.rs:174-210 | An operation starts only when none is pending; pending I/O exists exactly in Listening and Reading |
| PipeServers.Instance.Complete | src/windows_pipe.rs:256-276 | Handling a signaled event keeps phase and pending I/O together; a held instance is left as it is |
| PipeServers.Serve | src/windows.rs:3623-3720 | Throughout the request loop the only slot held without an answer is that of the running prepare; it ends idle only with every slot listening, nothing queued, no prepare running and the timeout passed |
| PipeServers.HandleEvent | src/windows.rs:3641-3709 | One event: a request is answered or becomes the running prepare, a wake answers the prepare, idle ends the loop only without one |
| StopHandshakes.NoStopIsLost | src/windows.rs:3457-3475 | In every interleaving of handler, loop and workers: with a stop requested and no commit running, the stop event is set or the loop's own check will see it |
| StopHandshakes.RunKeeps | src/windows.rs:4365-4381 | Every step of the three threads keeps the handshake's invariant |
| StopHandshakes.CheckExits | src/windows.rs:3632-3639 | What the check sees makes the loop exit |
| StopHandshakes.ExitsExactlyByExposure | src/windows.rs:4184-4231 | Every run in which the loop exits under a running commit has an exposing step, and every exposing step of a run can be continued to such an exit |
| StopHandshakes.NoExposureNoExit | src/windows.rs:4365-4381 | Without an exposing step no run exits under a running commit |
| StopHandshakes.EveryExposureHappens | src/windows.rs:4184-4231 | A run for each kind of exposing step: the handler reads the flag too early, an earlier worker clears it, an earlier worker finds the stop |
| ServiceJobs.Run | src/windows.rs:3904-4278 | Over any sequence of requests and worker results no two mutations overlap and no prepared transaction is committed twice |
| ServiceJobs.Service.FinishPrepare | src/windows.rs:3877-3892 | A finished prepare never replaces a job |
| ServiceJobs.Service.RequestCommit | src/windows.rs:4178-4265 | A commit starts exactly for a prepared job of its owner, without a stop request and with a worker, and once |
| ServiceJobs.Service.RequestPrepare | src/windows.rs:4128-4176 | A prepare starts exactly if the request passes and nothing else is live |
| ServiceJobs.Service.BeginApply | src/windows.rs:4090-4126 | A registry set is applied exactly if the request passes, nothing else is live and no stop was requested |
| ServiceJobs.Service.RequestStatus | src/windows.rs:4420-4465 | The status names the state of the job and its worker field by field; a terminal one repeats unchanged and is never reported while a worker runs |
| ServiceJobs.Service.RefreshActiveJob | src/windows.rs:4383-4418 | Only a finished worker changes a committing job, and a lost worker is never called rolled back |
| ServiceJobs.CommitWorker | src/windows.rs:4217-4231 | "committed" means all new files, "rolledBack" that nothing changed; without faults a job with changed targets is rolled back with RootIdentity, and one fault alone never makes it failed |
| CanonicalJson.CanonicalIsUnique | src/lib.rs:223-277 | For values of any depth equal canonical text means equal values up to member order, and conversely |
| CanonicalJson.AcceptedTextsAreUnique | src/lib.rs:279-304 | The canonical check accepts one text per value |
| CanonicalJson.CanonicalIsAccepted | src/lib.rs:279-304 | The canonical text of every value is accepted |
| CanonicalJson.Output.Write | src/lib.rs:229-277 | The recursive writer appends exactly the canonical text and fails exactly on floating-point numbers |
| CanonicalJson.CanonicalReadsBack | src/lib.rs:229-277 | Read by the grammar of RFC 8259, the text is the same value and nothing else, with the members of every object in byte order of their keys |
| CanonicalJson.BeforeIsByteOrder | src/lib.rs:257-260 | Keys are compared by their first different byte, a proper start first |
| CanonicalJson.NormalFormDecides | src/lib.rs:257-273 | Sorting keys at every depth decides equality up to member order |
| JsonTexts.ValueReadsOnce | src/lib.rs:229-277 | Whatever follows it, a value text ends at one place and denotes one value |
| JsonTexts.ValueReadsBack | src/lib.rs:229-277 | An independent reader gives back every value from its text, whatever follows it |
| JsonTexts.StringReadsOnce | src/lib.rs:246-248 | String literals with RFC 8259 escapes end at one place |
| Calendar.CivilFromDaysCountsDays | src/service_log.rs:105-121 | The closed form is the date reached by counting days from 1970-01-01 under the Gregorian leap rule |
| Calendar.DatesIncrease | src/service_log.rs:105-121 | Later days have later dates |
| Calendar.DateDeterminesDay | src/service_log.rs:105-121 | No two days share a date |
| ServiceLogs.StampDeterminesSecond | src/service_log.rs:90-103 | The date and time fields determine the second |
| ServiceLogs.LineIsOneLine | src/service_log.rs:74-103 | An event is one line of the file's bytes, whatever its fields hold |
| ServiceLogs.LinesAreBounded | src/service_log.rs:74-103 | No line is longer than 4135 bytes in UTF-8 |
| ServiceLogs.ServiceLog.Append | src/service_log.rs:57-71 | The two files hold the latest written bytes without a gap; the bound is kept by every line within it and broken by every complete longer one |
| ServiceLogs.ServiceLog.RecordAll | src/service_log.rs:43-71 | Over any events the log stays within its bound for every bound of at least the longest line |
| ServiceLogs.RecordService | src/service_log.rs:26-71 | The service's own log never holds more than twice its bound |
| Handoffs.WaitCommitRestart | src/bin/client.rs:206-278 | At most one Commit, only after the launcher exited; the launcher restarts only on a whole old or whole new set, and if no answer is lost it does restart once the job has ended, unless its recovery is incomplete |
| Handoffs.CommitAfterLauncherExit | src/bin/client.rs:625-635 | Exactly one Commit whatever happens to its answer |
| Handoffs.WaitForCompletion | src/bin/client.rs:661-700 | A status is returned only if it proves the files whole; if no answer is lost, a job that has ended is reported unless its recovery is incomplete |
| Handoffs.WorkerEndsTruly | src/windows.rs:4383-4418 | What the commit worker promises of its result is what the client's link lets a commit end with |
| Handoffs.CommitOnDisk | src/windows.rs:4217-4231 | A commit on the real file system ends in a job and files that the client's reasoning allows |

## Left out

- FileSystems.FileSystem.AppendState: an append that reports failure leaves no record; the code does not promise this, and FaultModel.LyingAppendLosesAFile shows what happens otherwise.
- FileSetJobs.RecoverIncomplete: restartability is stated for whole-record appends from journals of Committing jobs without torn bytes; the other cases are FaultModel.TornMarkerBlocksRestart and Journals.RollbackMarkerIsReadable.
- FileSetJobs.CommitFileSet: the paths of the job must belong to no unfinished job. The service does not check this after a commit that ended in RecoveryIncomplete.
- GenerationRuns.Service.Run: temporary files are written whole; a torn first creation is what ProtectedFiles.ProtectedFile.Replace describes.
- RegistryTransactions.ApplyRegistrySet: temporary files are written whole; a torn first journal makes the next start fail.
- Handoffs.WaitCommitRestart: a Commit that was not processed when its call returned is never processed later, and the restart after a lost status assumes that no other client commits the job.
- StopHandshakes.NoStopIsLost: the mask of accepted controls that is reported around a commit is left out, because a stop accepted before it can still be delivered under it; here the handler may run at any time.
- PipeServers.Serve: what a request asks for, and so which one becomes the prepare, is arbitrary; the log lines of the loop are left out.
- PipeServers.PipeServer.NextEvent: waits are counted by a bound instead of a clock that must advance, so nothing is said about how long a request waits.
- ServiceInstallations.Installation.EnsureThroughRollbacks: the old executable must not answer with the candidate's version, which follows from a true release record (ServiceInstallations.TrueRecordIsDistinct).
- ServiceInstallations.Installation.Ensure: the release record and the journal are taken as the contents their recovery reads, each write ending with old or new content.
- Outside writers, hard links, reparse points, directory identity and ACLs are observations of the platform; they appear as checks that can fail before a step. Parent directories of targets are created and never removed and are not modelled.
- Win32 and SCM calls, handles, impersonation, Authenticode and named-pipe transport: only their effect as a step that succeeds, fails or loses power.
- Ed25519 and SHA-256: the signature of a manifest is assumed verified, the hash is a parameter.
- File names are folded with ASCII letters only; Unicode case folding is not modelled. Strings are sequences of UTF-8 bytes, except in ServiceLogs, where they are sequences of characters.
- Private payload copies in the job directory: payloads go straight to the reserved directory; free-space checks are checks that can fail.
- JSON documents of the protected files and the journal header are encoded and parsed by parameters that undo each other; the canonical writer is modelled on values.
- Recovery takes the job directories in any order; the code sorts them by name.
- src/roots.rs and src/registry_scopes.rs: their load at startup skips the backup when the main file is missing, so old-or-new after a power loss does not hold for them and is not claimed.
- src/protocol.rs, src/trust.rs and the request authorization table: properties that one branch shows.
- Installer scripts, the uninstaller, Programs and Features, argument parsing, LZMA unpacking and the event log.
