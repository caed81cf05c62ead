/** Stopping the service while a commit may run: the control handler, the service loop and the commit
    workers share two flags and one manual-reset event. Every load and store is a step of its own, and
    the threads interleave freely. */
module StopHandshakes {

  /** The control handler between its steps. The service control manager calls it once at a time. */
  datatype HandlerAt = HandlerIdle | StopStored | WillSetEvent

  /** A commit worker: at work, with its result sent, and with the flag cleared by its `CommitActivity`
      but not yet done. */
  datatype WorkerAt = Committing | ResultSent | FlagCleared

  /** The service loop. `CommitAllowed` and `ApplyAllowed` lie between the check for a stop and the
      store of the flag; `ApplyCleared` is the drop of the loop's own `CommitActivity`. */
  datatype LoopAt =
    | AtCheck
    | StopLoaded(seen: bool)
    | NotCommitting
    | Waiting
    | Handling
    | CommitAllowed
    | CommitMarked
    | ApplyAllowed
    | Applying
    | ApplyCleared
    | Responding
    | Exited

  /** `prepared` is a prepared job that waits for its commit. */
  datatype State = State(
    stopRequested: bool, committing: bool, stopEvent: bool, preparing: bool, prepared: bool,
    handler: HandlerAt, loop: LoopAt, workers: map<nat, WorkerAt>)

  predicate Init(s: State) {
    s == State(false, false, false, false, false, HandlerIdle, AtCheck, map[])
  }

  /** `service_control_handler`. */
  predicate HandlerStep(s: State, t: State) {
    match s.handler
    case HandlerIdle => t == s.(stopRequested := true, handler := StopStored)
    case StopStored => t == s.(handler := if s.committing then HandlerIdle else WillSetEvent)
    case WillSetEvent => t == s.(stopEvent := true, handler := HandlerIdle)
  }

  /** The end of a commit worker: it sends its result, then `CommitActivity` clears the flag and looks
      for a stop. */
  predicate WorkerStep(s: State, t: State, w: nat) {
    && w in s.workers
    && match s.workers[w]
       case Committing => t == s.(workers := s.workers[w := ResultSent])
       case ResultSent => t == s.(committing := false, workers := s.workers[w := FlagCleared])
       case FlagCleared => t == s.(stopEvent := s.stopEvent || s.stopRequested, workers := s.workers - {w})
  }

  /** A commit is at work: its job is the active one, so no other mutation starts. */
  ghost predicate AtWork(s: State) { exists w :: w in s.workers && s.workers[w].Committing? }

  /** A job is being prepared, waits for its commit or is being committed. */
  ghost predicate Live(s: State) { s.preparing || s.prepared || AtWork(s) }

  /** The loop of `serve_requests` with the prepare, commit and apply branches of `process_request`. */
  ghost predicate LoopStep(s: State, t: State) {
    match s.loop
    case AtCheck => t == s.(loop := StopLoaded(s.stopRequested))
    case StopLoaded(seen) => t == s.(loop := if seen && !s.committing then NotCommitting else Waiting)
    case NotCommitting => t == s.(loop := if s.preparing then Waiting else Exited)
    case Waiting =>
      || t == s.(loop := Handling)                                             // a request
      || (s.preparing && t == s.(loop := Responding, preparing := false))      // wake: the prepare failed
      || (s.preparing && t == s.(loop := Responding, preparing := false, prepared := true))  // or its job is active
      || t == s.(loop := AtCheck)                                              // wake: nothing to collect
      || (s.stopEvent && t == s.(loop := Exited))                              // the stop event
      || t == s.(loop := if s.committing || s.preparing then AtCheck else Exited)  // idle
    case Handling =>
      || t == s.(loop := Responding)
      || (!Live(s) && t == s.(loop := AtCheck, preparing := true))               // a prepare was dispatched
      || (s.prepared && !s.stopRequested && t == s.(loop := CommitAllowed, prepared := false))
      || (!Live(s) && !s.stopRequested && t == s.(loop := ApplyAllowed))
    case CommitAllowed => t == s.(committing := true, loop := CommitMarked)
    case CommitMarked =>
      || (exists w: nat :: w !in s.workers && t == s.(workers := s.workers[w := Committing], loop := Responding))
      || t == s.(committing := false, prepared := true, loop := Responding)    // no worker could be started
    case ApplyAllowed => t == s.(committing := true, loop := Applying)
    case Applying => t == s.(committing := false, loop := ApplyCleared)
    case ApplyCleared => t == s.(stopEvent := s.stopEvent || s.stopRequested, loop := Responding)
    case Responding => t == s.(loop := AtCheck)
    case Exited => false
  }

  ghost predicate Step(s: State, t: State) {
    HandlerStep(s, t) || LoopStep(s, t) || exists w :: WorkerStep(s, t, w)
  }

  /** Some commit, on a worker or on the loop, has not yet looked for a stop at its end. */
  ghost predicate CommitRunning(s: State) {
    s.workers != map[] || s.loop in {CommitMarked, Applying, ApplyCleared}
  }

  /** The loop is on its way to its own check, and the check will succeed. */
  predicate CheckWillSee(s: State) {
    && !s.committing && !s.preparing
    && s.loop in {Responding, AtCheck, StopLoaded(true), NotCommitting}
  }

  ghost predicate Invariant(s: State) {
    && (s.committing ==> s.loop in {CommitMarked, Applying} || exists w :: w in s.workers && !s.workers[w].FlagCleared?)
    && !(s.preparing && s.prepared)
    && (s.prepared ==> !AtWork(s) && s.loop !in {CommitAllowed, CommitMarked, ApplyAllowed, Applying, ApplyCleared})
    && (AtWork(s) ==> !s.preparing && s.loop !in {CommitAllowed, CommitMarked, ApplyAllowed, Applying, ApplyCleared})
    && (forall v, w :: v in s.workers && w in s.workers && s.workers[v].Committing? && s.workers[w].Committing? ==> v == w)
    && (s.stopEvent || s.loop == NotCommitting ==> s.stopRequested)
    && (s.loop in {CommitAllowed, CommitMarked, ApplyAllowed, Applying, ApplyCleared} ==> !s.preparing)
    && (s.handler in {StopStored, WillSetEvent} ==> s.stopRequested)
    && (s.loop in {StopLoaded(true), NotCommitting} ==> s.stopRequested)
    && NoLostStop(s)
  }

  /** Once a stop was requested and the handler is done, and while the loop runs: the stop event is set,
      or a running commit will set it at its end, or the loop's own check is about to see the stop. */
  ghost predicate NoLostStop(s: State) {
    s.stopRequested && s.handler.HandlerIdle? && !s.loop.Exited? ==>
      s.stopEvent || CommitRunning(s) || CheckWillSee(s)
  }

  lemma HandlerKeeps(s: State, t: State)
    requires Invariant(s) && HandlerStep(s, t)
    ensures Invariant(t)
  {}

  lemma WorkerKeeps(s: State, t: State, w: nat)
    requires Invariant(s) && WorkerStep(s, t, w)
    ensures Invariant(t)
  {
    if s.workers[w].Committing? {
      assert w in t.workers && t.workers[w].ResultSent?;
    } else if s.committing && s.loop !in {CommitMarked, Applying} {
      var v :| v in s.workers && !s.workers[v].FlagCleared?;
      assert v != w ==> v in t.workers && t.workers[v] == s.workers[v];
    }
    assert forall v :: v in t.workers && t.workers[v].Committing? ==> v in s.workers && s.workers[v].Committing?;
  }

  lemma SpawnKeeps(s: State, t: State, w: nat)
    requires Invariant(s) && s.loop.CommitMarked? && w !in s.workers
    requires t == s.(workers := s.workers[w := Committing], loop := Responding)
    ensures Invariant(t)
  {
    assert w in t.workers && t.workers[w].Committing?;
    assert forall v :: v in t.workers && v != w ==> v in s.workers && t.workers[v] == s.workers[v];
    assert forall v :: v in t.workers && t.workers[v].Committing? ==> v == w;
  }

  lemma HandlingKeeps(s: State, t: State)
    requires Invariant(s) && LoopStep(s, t) && t.workers == s.workers && s.loop.Handling?
    ensures Invariant(t)
  {
    assert AtWork(t) == AtWork(s);
  }

  lemma WaitingKeeps(s: State, t: State)
    requires Invariant(s) && LoopStep(s, t) && t.workers == s.workers && s.loop.Waiting?
    ensures Invariant(t)
  {
    assert AtWork(t) == AtWork(s);
  }

  lemma MutationKeeps(s: State, t: State)
    requires Invariant(s) && LoopStep(s, t) && t.workers == s.workers
    requires s.loop in {CommitAllowed, CommitMarked, ApplyAllowed, Applying, ApplyCleared}
    ensures Invariant(t)
  {
    assert AtWork(t) == AtWork(s);
  }

  lemma QuietLoopKeeps(s: State, t: State)
    requires Invariant(s) && LoopStep(s, t) && t.workers == s.workers
    ensures Invariant(t)
  {
    if s.loop.Handling? {
      HandlingKeeps(s, t);
    } else if s.loop.Waiting? {
      WaitingKeeps(s, t);
    } else if s.loop in {CommitAllowed, CommitMarked, ApplyAllowed, Applying, ApplyCleared} {
      MutationKeeps(s, t);
    } else {
      assert AtWork(t) == AtWork(s);
    }
  }

  lemma LoopKeeps(s: State, t: State)
    requires Invariant(s) && LoopStep(s, t)
    ensures Invariant(t)
  {
    if s.loop.CommitMarked? && t.workers != s.workers {
      var w: nat :| w !in s.workers && t == s.(workers := s.workers[w := Committing], loop := Responding);
      SpawnKeeps(s, t, w);
    } else {
      QuietLoopKeeps(s, t);
    }
  }

  ghost predicate IsRun(run: seq<State>) {
    run != [] && Init(run[0]) && forall i :: 0 < i < |run| ==> Step(run[i - 1], run[i])
  }

  lemma {:induction false} RunKeeps(run: seq<State>, n: nat)
    requires IsRun(run) && n < |run|
    ensures Invariant(run[n])
  {
    if n > 0 {
      RunKeeps(run, n - 1);
      var s, t := run[n - 1], run[n];
      assert Step(s, t);
      if HandlerStep(s, t) {
        HandlerKeeps(s, t);
      } else if LoopStep(s, t) {
        LoopKeeps(s, t);
      } else {
        var w :| WorkerStep(s, t, w);
        WorkerKeeps(s, t, w);
      }
    }
  }

  /** No stop is lost in any interleaving: whenever a stop was requested, the handler is done, no commit
      runs and the loop still does, the stop event is set or the loop's own check will see the stop. In
      particular the loop never waits for the next event with an unannounced stop. */
  lemma NoStopIsLost(run: seq<State>, n: nat)
    requires IsRun(run) && n < |run|
    requires run[n].stopRequested && run[n].handler.HandlerIdle? && !CommitRunning(run[n]) && !run[n].loop.Exited?
    ensures run[n].stopEvent || CheckWillSee(run[n])
    ensures run[n].loop.Waiting? ==> run[n].stopEvent
  {
    RunKeeps(run, n);
  }

  /** What the check sees it acts on: with no step of the other threads in between, the loop exits. */
  lemma CheckExits(s: State, a: State, b: State, c: State)
    requires Invariant(s) && s.loop.AtCheck? && s.stopRequested && CheckWillSee(s)
    requires LoopStep(s, a) && LoopStep(a, b) && LoopStep(b, c)
    ensures c.loop.Exited?
  {}

  // ---- exits under a running commit --------------------------------------------------------

  /** The loop has exited while a commit is at work. */
  ghost predicate ExitedUnderCommit(s: State) { s.loop.Exited? && AtWork(s) }

  /** A stop will reach the loop although a commit is starting or at work: the event is set, the handler
      is about to set it, or the flag is down. */
  predicate Exposed(s: State) {
    s.stopEvent || s.handler.WillSetEvent? || (s.loop != CommitAllowed && !s.committing)
  }

  /** A commit was allowed and has not ended. */
  ghost predicate CommitUnderWay(s: State) { s.loop in {CommitAllowed, CommitMarked} || AtWork(s) }

  /** The interleavings that expose a commit: the handler reads the flag after the commit was allowed and
      before the flag is stored; an earlier worker clears the flag after it was stored; an earlier
      worker looks for a stop, and finds one, after that. */
  ghost predicate ExposingStep(s: State, t: State) {
    || (s.loop == CommitAllowed && s.handler.StopStored? && HandlerStep(s, t) && !s.committing)
    || (exists w ::
          && w in s.workers && WorkerStep(s, t, w) && CommitUnderWay(t)
          && (|| (s.workers[w].ResultSent? && s.loop != CommitAllowed)
              || (s.workers[w].FlagCleared? && s.stopRequested)))
  }

  /** A commit that no step exposed is not exposed. */
  ghost predicate Shielded(s: State) {
    && (CommitUnderWay(s) ==> !Exposed(s) && s.loop != NotCommitting)
    && !ExitedUnderCommit(s)
  }

  lemma HandlerShields(s: State, t: State)
    requires Invariant(s) && Shielded(s) && HandlerStep(s, t) && !ExposingStep(s, t)
    ensures Shielded(t)
  {}

  lemma WorkerShields(s: State, t: State, w: nat)
    requires Invariant(s) && Shielded(s) && WorkerStep(s, t, w) && !ExposingStep(s, t)
    ensures Shielded(t)
  {
    assert forall v :: v in t.workers && t.workers[v].Committing? ==> v in s.workers && s.workers[v].Committing?;
    assert CommitUnderWay(t) ==> CommitUnderWay(s);
  }

  lemma LoopShields(s: State, t: State)
    requires Invariant(s) && Shielded(s) && LoopStep(s, t)
    ensures Shielded(t)
  {
    if s.loop.CommitMarked? && t.workers != s.workers {
      var w: nat :| w !in s.workers && t == s.(workers := s.workers[w := Committing], loop := Responding);
    } else {
      assert t.workers == s.workers;
    }
  }

  /** In a run without an exposing step the loop never exits while a commit is at work. */
  lemma {:induction false} NoExposureNoExit(run: seq<State>, n: nat)
    requires IsRun(run) && n < |run|
    requires forall i :: 0 < i <= n ==> !ExposingStep(run[i - 1], run[i])
    ensures Shielded(run[n]) && !ExitedUnderCommit(run[n])
  {
    if n > 0 {
      NoExposureNoExit(run, n - 1);
      RunKeeps(run, n - 1);
      var s, t := run[n - 1], run[n];
      assert Step(s, t);
      if HandlerStep(s, t) {
        HandlerShields(s, t);
      } else if LoopStep(s, t) {
        LoopShields(s, t);
      } else {
        var w :| WorkerStep(s, t, w);
        WorkerShields(s, t, w);
      }
    }
  }

  /** Some continuation of at most `n` steps leads to an exit under a running commit. */
  ghost predicate CanExit(s: State, n: nat)
    decreases n
  {
    ExitedUnderCommit(s) || (n > 0 && exists t :: Step(s, t) && CanExit(t, n - 1))
  }

  lemma ThenExit(s: State, t: State, n: nat)
    requires n > 0 && Step(s, t) && CanExit(t, n - 1)
    ensures CanExit(s, n)
  {}

  /** A commit is at work while the event is set or the flag is down. */
  ghost predicate Open(s: State) { AtWork(s) && !s.preparing && (s.stopEvent || !s.committing) }

  lemma WaitingExits(s: State, n: nat)
    requires Open(s) && s.loop in {Waiting, NotCommitting} && n >= 1
    ensures CanExit(s, n)
  {
    var t := s.(loop := Exited);
    assert LoopStep(s, t) && AtWork(t);
    ThenExit(s, t, n);
  }

  lemma CheckingExits(s: State, n: nat)
    requires Open(s) && s.loop.StopLoaded? && n >= 2
    ensures CanExit(s, n)
  {
    var t := s.(loop := if s.loop.seen && !s.committing then NotCommitting else Waiting);
    assert LoopStep(s, t) && AtWork(t);
    WaitingExits(t, n - 1);
    ThenExit(s, t, n);
  }

  lemma AtCheckExits(s: State, n: nat)
    requires Open(s) && s.loop.AtCheck? && n >= 3
    ensures CanExit(s, n)
  {
    var t := s.(loop := StopLoaded(s.stopRequested));
    assert LoopStep(s, t) && AtWork(t);
    CheckingExits(t, n - 1);
    ThenExit(s, t, n);
  }

  lemma RespondingExits(s: State, n: nat)
    requires Open(s) && s.loop.Responding? && n >= 4
    ensures CanExit(s, n)
  {
    var t := s.(loop := AtCheck);
    assert LoopStep(s, t) && AtWork(t);
    AtCheckExits(t, n - 1);
    ThenExit(s, t, n);
  }

  lemma HandlingExits(s: State, n: nat)
    requires Open(s) && s.loop.Handling? && n >= 5
    ensures CanExit(s, n)
  {
    var t := s.(loop := Responding);
    assert LoopStep(s, t) && AtWork(t);
    RespondingExits(t, n - 1);
    ThenExit(s, t, n);
  }

  lemma ExposedAtWorkExits(s: State, n: nat)
    requires Invariant(s) && AtWork(s) && !s.loop.Exited? && (s.stopEvent || !s.committing) && n >= 5
    ensures CanExit(s, n)
  {
    if s.loop in {Waiting, NotCommitting} {
      WaitingExits(s, n);
    } else if s.loop.StopLoaded? {
      CheckingExits(s, n);
    } else if s.loop.AtCheck? {
      AtCheckExits(s, n);
    } else if s.loop.Responding? {
      RespondingExits(s, n);
    } else {
      HandlingExits(s, n);
    }
  }

  lemma {:induction false} FreshWorker(ids: set<nat>) returns (w: nat)
    ensures forall v :: v in ids ==> v < w
  {
    if ids == {} {
      w := 0;
    } else {
      var v :| v in ids;
      var u := FreshWorker(ids - {v});
      w := if u > v then u else v + 1;
      forall x | x in ids ensures x < w { assert x != v ==> x in ids - {v}; }
    }
  }

  lemma ExposedMarkedExits(s: State, n: nat)
    requires Invariant(s) && s.loop.CommitMarked? && (s.stopEvent || !s.committing) && n >= 6
    ensures CanExit(s, n)
  {
    var w: nat := FreshWorker(s.workers.Keys);
    var t := s.(workers := s.workers[w := Committing], loop := Responding);
    assert w !in s.workers && LoopStep(s, t);
    SpawnKeeps(s, t, w);
    assert w in t.workers && t.workers[w].Committing?;
    ExposedAtWorkExits(t, n - 1);
    ThenExit(s, t, n);
  }

  lemma ExposedAllowedExits(s: State, n: nat)
    requires Invariant(s) && s.loop.CommitAllowed? && s.stopEvent && n >= 7
    ensures CanExit(s, n)
  {
    var t := s.(committing := true, loop := CommitMarked);
    assert LoopStep(s, t);
    QuietLoopKeeps(s, t);
    ExposedMarkedExits(t, n - 1);
    ThenExit(s, t, n);
  }

  lemma SettingTheEvent(s: State, t: State)
    requires Invariant(s) && CommitUnderWay(s) && s.handler.WillSetEvent?
    requires t == s.(stopEvent := true, handler := HandlerIdle)
    ensures Step(s, t) && Invariant(t) && CommitUnderWay(t)
  {
    assert HandlerStep(s, t);
    HandlerKeeps(s, t);
    assert AtWork(t) == AtWork(s);
  }

  /** Every exposed commit can be exited under, in at most eight more steps. */
  lemma ExposedExits(s: State, n: nat)
    requires Invariant(s) && CommitUnderWay(s) && Exposed(s) && !s.loop.Exited? && n >= 8
    ensures CanExit(s, n)
  {
    if s.stopEvent {
      ExposedEventExits(s, n);
    } else if s.handler.WillSetEvent? {
      var t := s.(stopEvent := true, handler := HandlerIdle);
      SettingTheEvent(s, t);
      ExposedEventExits(t, n - 1);
      ThenExit(s, t, n);
    } else if s.loop.CommitMarked? {
      ExposedMarkedExits(s, n);
    } else {
      ExposedAtWorkExits(s, n);
    }
  }

  lemma ExposedEventExits(s: State, n: nat)
    requires Invariant(s) && CommitUnderWay(s) && s.stopEvent && !s.loop.Exited? && n >= 7
    ensures CanExit(s, n)
  {
    if s.loop.CommitAllowed? {
      ExposedAllowedExits(s, n);
    } else if s.loop.CommitMarked? {
      ExposedMarkedExits(s, n);
    } else {
      ExposedAtWorkExits(s, n);
    }
  }

  lemma ExposingStepExposes(s: State, t: State)
    requires Invariant(s) && ExposingStep(s, t)
    ensures Exposed(t) && CommitUnderWay(t)
  {}

  /** When the loop can exit under a running commit: every run that does so has an exposing step, and
      every exposing step of a run can be continued to such an exit. */
  lemma ExitsExactlyByExposure(run: seq<State>, n: nat)
    requires IsRun(run) && n < |run|
    ensures ExitedUnderCommit(run[n]) ==> exists i :: 0 < i <= n && ExposingStep(run[i - 1], run[i])
    ensures n > 0 && ExposingStep(run[n - 1], run[n]) ==> CanExit(run[n], 8)
  {
    if forall i :: 0 < i <= n ==> !ExposingStep(run[i - 1], run[i]) { NoExposureNoExit(run, n); }
    if n > 0 && ExposingStep(run[n - 1], run[n]) {
      RunKeeps(run, n - 1);
      RunKeeps(run, n);
      ExposingStepExposes(run[n - 1], run[n]);
      if run[n].loop.Exited? {
        assert ExitedUnderCommit(run[n]);
      } else {
        ExposedExits(run[n], 8);
      }
    }
  }

  // ---- one run for each kind of exposing step ----------------------------------------------

  function Quiet(flag: bool, loop: LoopAt, workers: map<nat, WorkerAt>, preparing: bool, prepared: bool): State {
    State(false, flag, false, preparing, prepared, HandlerIdle, loop, workers)
  }

  function Stopped(flag: bool, event: bool, handler: HandlerAt, loop: LoopAt, workers: map<nat, WorkerAt>): State {
    State(true, flag, event, false, false, handler, loop, workers)
  }

  /** A prepare and the request to commit its job, beside earlier workers. */
  function ToCommit(flag: bool, workers: map<nat, WorkerAt>, i: nat): State
    requires i <= 13
  {
    match i
    case 0 => Quiet(flag, AtCheck, workers, false, false)
    case 1 => Quiet(flag, StopLoaded(false), workers, false, false)
    case 2 => Quiet(flag, Waiting, workers, false, false)
    case 3 => Quiet(flag, Handling, workers, false, false)
    case 4 => Quiet(flag, AtCheck, workers, true, false)
    case 5 => Quiet(flag, StopLoaded(false), workers, true, false)
    case 6 => Quiet(flag, Waiting, workers, true, false)
    case 7 => Quiet(flag, Responding, workers, false, true)
    case 8 => Quiet(flag, AtCheck, workers, false, true)
    case 9 => Quiet(flag, StopLoaded(false), workers, false, true)
    case 10 => Quiet(flag, Waiting, workers, false, true)
    case 11 => Quiet(flag, Handling, workers, false, true)
    case 12 => Quiet(flag, CommitAllowed, workers, false, false)
    case 13 => Quiet(true, CommitMarked, workers, false, false)
  }

  /** The first commit up to its result. */
  function FirstCommit(i: nat): State
    requires i <= 15
  {
    if i <= 13 then ToCommit(false, map[], i)
    else Quiet(true, Responding, map[0 := if i == 14 then Committing else ResultSent], false, false)
  }

  /** The handler stores the stop and reads the flag between the check and the store of the flag. */
  function EarlyRead(i: nat): State
    requires i <= 21
  {
    if i <= 12 then ToCommit(false, map[], i) else
    match i
    case 13 => Stopped(false, false, StopStored, CommitAllowed, map[])
    case 14 => Stopped(false, false, WillSetEvent, CommitAllowed, map[])
    case 15 => Stopped(false, true, HandlerIdle, CommitAllowed, map[])
    case 16 => Stopped(true, true, HandlerIdle, CommitMarked, map[])
    case 17 => Stopped(true, true, HandlerIdle, Responding, map[0 := Committing])
    case 18 => Stopped(true, true, HandlerIdle, AtCheck, map[0 := Committing])
    case 19 => Stopped(true, true, HandlerIdle, StopLoaded(true), map[0 := Committing])
    case 20 => Stopped(true, true, HandlerIdle, Waiting, map[0 := Committing])
    case 21 => Stopped(true, true, HandlerIdle, Exited, map[0 := Committing])
  }

  /** The first worker clears the flag of the second commit. The stop event is never set. */
  function LateClear(i: nat): State
    requires i <= 37
  {
    if i <= 15 then FirstCommit(i)
    else if i <= 29 then ToCommit(true, map[0 := ResultSent], i - 16)
    else
      match i
      case 30 => Quiet(true, Responding, map[0 := ResultSent, 1 := Committing], false, false)
      case 31 => Quiet(false, Responding, map[0 := FlagCleared, 1 := Committing], false, false)
      case 32 => Quiet(false, Responding, map[1 := Committing], false, false)
      case 33 => Stopped(false, false, StopStored, Responding, map[1 := Committing])
      case 34 => Stopped(false, false, StopStored, AtCheck, map[1 := Committing])
      case 35 => Stopped(false, false, StopStored, StopLoaded(true), map[1 := Committing])
      case 36 => Stopped(false, false, StopStored, NotCommitting, map[1 := Committing])
      case 37 => Stopped(false, false, StopStored, Exited, map[1 := Committing])
  }

  /** The first worker cleared the flag in time, but looks for a stop under the second commit. */
  function LateLook(i: nat): State
    requires i <= 38
  {
    if i <= 15 then FirstCommit(i)
    else if i == 16 then Quiet(false, Responding, map[0 := FlagCleared], false, false)
    else if i <= 30 then ToCommit(false, map[0 := FlagCleared], i - 17)
    else
      match i
      case 31 => Stopped(true, false, StopStored, CommitMarked, map[0 := FlagCleared])
      case 32 => Stopped(true, false, HandlerIdle, CommitMarked, map[0 := FlagCleared])
      case 33 => Stopped(true, false, HandlerIdle, Responding, map[0 := FlagCleared, 1 := Committing])
      case 34 => Stopped(true, true, HandlerIdle, Responding, map[1 := Committing])
      case 35 => Stopped(true, true, HandlerIdle, AtCheck, map[1 := Committing])
      case 36 => Stopped(true, true, HandlerIdle, StopLoaded(true), map[1 := Committing])
      case 37 => Stopped(true, true, HandlerIdle, Waiting, map[1 := Committing])
      case 38 => Stopped(true, true, HandlerIdle, Exited, map[1 := Committing])
  }

  lemma Spawns(s: State, t: State, w: nat)
    requires s.loop.CommitMarked? && w !in s.workers
    requires t == s.(workers := s.workers[w := Committing], loop := Responding)
    ensures Step(s, t)
  {
    assert LoopStep(s, t);
  }

  lemma ToCommitSteps(flag: bool, workers: map<nat, WorkerAt>, i: nat)
    requires 0 < i <= 13 && forall w :: w in workers ==> !workers[w].Committing?
    ensures Step(ToCommit(flag, workers, i - 1), ToCommit(flag, workers, i))
  {
    assert LoopStep(ToCommit(flag, workers, i - 1), ToCommit(flag, workers, i));
  }

  lemma FirstCommitSteps(i: nat)
    requires 0 < i <= 15
    ensures Step(FirstCommit(i - 1), FirstCommit(i))
  {
    if i <= 13 {
      ToCommitSteps(false, map[], i);
    } else if i == 14 {
      Spawns(FirstCommit(13), FirstCommit(14), 0);
    } else {
      assert WorkerStep(FirstCommit(14), FirstCommit(15), 0);
    }
  }

  lemma EarlyReadSteps(i: nat)
    requires 0 < i <= 21
    ensures Step(EarlyRead(i - 1), EarlyRead(i))
  {
    if i <= 12 {
      ToCommitSteps(false, map[], i);
    } else if i in {13, 14, 15} {
      assert HandlerStep(EarlyRead(i - 1), EarlyRead(i));
    } else if i == 17 {
      Spawns(EarlyRead(16), EarlyRead(17), 0);
    } else {
      assert LoopStep(EarlyRead(i - 1), EarlyRead(i));
    }
  }

  lemma LateClearSteps(i: nat)
    requires 0 < i <= 37
    ensures Step(LateClear(i - 1), LateClear(i))
  {
    if i <= 15 {
      FirstCommitSteps(i);
    } else if 16 < i <= 29 {
      ToCommitSteps(true, map[0 := ResultSent], i - 16);
    } else if i == 30 {
      Spawns(LateClear(29), LateClear(30), 1);
    } else if i in {31, 32} {
      assert WorkerStep(LateClear(i - 1), LateClear(i), 0);
    } else if i == 33 {
      assert HandlerStep(LateClear(32), LateClear(33));
    } else {
      assert LoopStep(LateClear(i - 1), LateClear(i));
    }
  }

  lemma LateLookSteps(i: nat)
    requires 0 < i <= 38
    ensures Step(LateLook(i - 1), LateLook(i))
  {
    if i <= 15 {
      FirstCommitSteps(i);
    } else if i == 16 || i == 34 {
      assert WorkerStep(LateLook(i - 1), LateLook(i), 0);
    } else if 17 < i <= 30 {
      ToCommitSteps(false, map[0 := FlagCleared], i - 17);
    } else if i in {31, 32} {
      assert HandlerStep(LateLook(i - 1), LateLook(i));
    } else if i == 33 {
      Spawns(LateLook(32), LateLook(33), 1);
    } else {
      assert LoopStep(LateLook(i - 1), LateLook(i));
    }
  }

  /** Each kind of exposing step happens in some run that exits under a running commit. */
  lemma EveryExposureHappens()
    ensures exists run: seq<State> ::
              IsRun(run) && ExitedUnderCommit(run[|run| - 1])
              && exists i :: 0 < i < |run| && run[i - 1].loop.CommitAllowed? && run[i].handler.WillSetEvent?
    ensures exists run: seq<State> ::
              IsRun(run) && ExitedUnderCommit(run[|run| - 1]) && forall i :: 0 <= i < |run| ==> !run[i].stopEvent
    ensures exists run: seq<State> ::
              IsRun(run) && ExitedUnderCommit(run[|run| - 1])
              && forall i :: 0 <= i < |run| ==> !run[i].handler.WillSetEvent? && (AtWork(run[i]) ==> run[i].committing)
  {
    EarlyReadRun();
    LateClearRun();
    LateLookRun();
  }

  lemma EarlyReadRun()
    ensures exists run: seq<State> ::
              IsRun(run) && ExitedUnderCommit(run[|run| - 1])
              && exists i :: 0 < i < |run| && run[i - 1].loop.CommitAllowed? && run[i].handler.WillSetEvent?
  {
    var run := seq(22, i requires 0 <= i <= 21 => EarlyRead(i));
    forall i | 0 < i < |run| ensures Step(run[i - 1], run[i]) { EarlyReadSteps(i); }
    assert run[13].loop.CommitAllowed? && run[14].handler.WillSetEvent?;
    assert 0 in run[21].workers && run[21].workers[0].Committing?;
    assert IsRun(run);
  }

  lemma LateClearRun()
    ensures exists run: seq<State> ::
              IsRun(run) && ExitedUnderCommit(run[|run| - 1]) && forall i :: 0 <= i < |run| ==> !run[i].stopEvent
  {
    var run := seq(38, i requires 0 <= i <= 37 => LateClear(i));
    forall i | 0 < i < |run| ensures Step(run[i - 1], run[i]) { LateClearSteps(i); }
    assert 1 in run[37].workers && run[37].workers[1].Committing?;
    assert IsRun(run);
  }

  lemma LateLookRun()
    ensures exists run: seq<State> ::
              IsRun(run) && ExitedUnderCommit(run[|run| - 1])
              && forall i :: 0 <= i < |run| ==> !run[i].handler.WillSetEvent? && (AtWork(run[i]) ==> run[i].committing)
  {
    var run := seq(39, i requires 0 <= i <= 38 => LateLook(i));
    forall i | 0 < i < |run| ensures Step(run[i - 1], run[i]) { LateLookSteps(i); }
    assert 1 in run[38].workers && run[38].workers[1].Committing?;
    assert IsRun(run);
  }
}
