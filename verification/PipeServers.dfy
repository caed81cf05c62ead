/** The service's end of the request pipe: a fixed set of instances that listen, read one request, are
    held until it is answered and listen again. Kernel results and the clock are nondeterministic. */
module PipeServers {
  import opened Outcomes
  import opened Text

  type Message = Result<seq<byte>>

  datatype Phase = Listening | Reading(deadline: nat) | Held

  /** The overlapped operation that the kernel still has of this instance. */
  datatype PendingIo = NoIo | ConnectPending | ReadPending

  datatype Progress = Pending | Request(message: Message)

  class Instance {
    var phase: Phase
    var io: PendingIo

    constructor ()
      ensures phase == Held && io == NoIo
    {
      phase, io := Held, NoIo;
    }

    /** Pending I/O exists exactly in Listening and Reading. */
    predicate Valid()
      reads this
    {
      match phase
      case Listening => io == ConnectPending
      case Reading(_) => io == ReadPending
      case Held => io == NoIo
    }

    /** `cancel_pending` waits until the kernel no longer uses the buffers. */
    method CancelPending()
      requires Valid()
      modifies this
      ensures phase == Held && io == NoIo
    {
      if phase.Listening? || phase.Reading? {
        io := NoIo;
        phase := Held;
      }
    }

    /** `listen`: it starts an operation only when none is pending. A failure leaves the instance Held. */
    method Listen(now: nat, readTimeout: nat) returns (r: Result<Progress>)
      requires Valid()
      modifies this
      ensures Valid()
      ensures r.Ok? ==> (r.value.Request? <==> phase.Held?)
      ensures r.Err? ==> phase.Held?
      ensures phase.Reading? ==> phase.deadline == now + readTimeout
    {
      CancelPending();
      for attempt := 0 to 4
        invariant phase == Held && io == NoIo
      {
        var connected: bool, pending: bool, gone: bool := *, *, *;
        if connected {
          var progress := StartRead(now, readTimeout);
          return Ok(progress);
        }
        if pending {
          io := ConnectPending;
          phase := Listening;
          return Ok(Pending);
        }
        if !gone { return Err(TransactionIo); }
      }
      return Err(TransactionIo);
    }

    /** `start_read`. */
    method StartRead(now: nat, readTimeout: nat) returns (progress: Progress)
      requires io == NoIo
      modifies this
      ensures Valid()
      ensures progress.Request? <==> phase.Held?
      ensures progress.Pending? ==> phase == Reading(now + readTimeout)
    {
      var finished: bool, pending: bool := *, *;
      if finished {
        phase, io := Reading(now + readTimeout), ReadPending;
        var message := FinishRead();
        return Request(message);
      }
      if pending {
        phase, io := Reading(now + readTimeout), ReadPending;
        return Pending;
      }
      phase := Held;
      return Request(Err(ProtocolInvalid));
    }

    /** `finish_read`: the read has completed, so the kernel is done with the buffer. */
    method FinishRead() returns (message: Message)
      requires io == ReadPending
      modifies this
      ensures phase == Held && io == NoIo
    {
      io := NoIo;
      phase := Held;
      message := *;
    }

    /** `complete`: handles the signaled event of a Listening or Reading instance; a Held one is left as it is. */
    method Complete(now: nat, readTimeout: nat) returns (r: Result<Progress>)
      requires Valid()
      modifies this
      ensures Valid()
      ensures old(phase).Held? ==> r == Ok(Pending) && phase == old(phase)
      ensures !old(phase).Held? && r.Ok? ==> (r.value.Request? <==> phase.Held?)
      ensures r.Err? ==> phase.Held?
    {
      match phase {
        case Listening =>
          io := NoIo;
          phase := Held;
          var connected: bool := *;
          if connected {
            var progress := StartRead(now, readTimeout);
            return Ok(progress);
          }
          r := Listen(now, readTimeout);
        case Reading(_) =>
          var message := FinishRead();
          return Ok(Request(message));
        case Held => return Ok(Pending);
      }
    }

    /** `write`: the response is written or cancelled before it returns. */
    method Write() returns (r: Outcome)
      requires phase == Held && io == NoIo
      ensures !r.PowerLoss?
    {
      var written: bool := *;
      r := if written then Done else Failed(TransactionIo);
    }
  }

  predicate InReady(ready: seq<(nat, Message)>, slot: nat) { exists i :: 0 <= i < |ready| && ready[i].0 == slot }

  ghost predicate DistinctSlots(ready: seq<(nat, Message)>) {
    forall i, j :: 0 <= i < j < |ready| ==> ready[i].0 != ready[j].0
  }

  ghost function Slots(n: nat): (slots: set<nat>)
    ensures forall slot: nat :: slot in slots <==> slot < n
  {
    if n == 0 then {} else Slots(n - 1) + {n - 1}
  }

  predicate Expired(phase: Phase, now: nat) { phase.Reading? && phase.deadline <= now }

  /** The slot of a disconnected client: any read on it began at `now` or later. */
  predicate Renewed(phase: Phase, now: nat, readTimeout: nat) { phase.Reading? ==> phase.deadline >= now + readTimeout }

  datatype PipeEvent = RequestEvent(slot: nat, message: Message) | Stop | Wake | Idle | StillWaiting

  class PipeServer {
    const instances: seq<Instance>
    const readTimeout: nat
    var ready: seq<(nat, Message)>
    /** Slots whose request was handed to the caller and not answered yet. */
    ghost var handed: set<nat>
    var lastActivity: nat
    var clock: nat

    ghost predicate Structure()
      reads this, instances
    {
      && (forall i, j :: 0 <= i < j < |instances| ==> instances[i] != instances[j])
      && (forall i :: 0 <= i < |instances| ==> instances[i].Valid())
      && (forall i :: 0 <= i < |ready| ==> ready[i].0 < |instances|)
      && (forall slot :: slot in handed ==> slot < |instances|)
      && DistinctSlots(ready)
      && (forall slot :: slot in handed ==> !InReady(ready, slot))
      && lastActivity <= clock
    }

    /** Except for the slots in `open`, a slot is Held exactly when its request is in the queue or with
        the caller. */
    ghost predicate ConservedBut(open: set<nat>)
      reads this, instances
    {
      && Structure()
      && forall slot :: 0 <= slot < |instances| ==>
           if slot in open then !InReady(ready, slot) && slot !in handed
           else (instances[slot].phase.Held? <==> InReady(ready, slot) || slot in handed)
    }

    /** Slot conservation: Held exactly when in the queue once or with the caller once. */
    ghost predicate Valid()
      reads this, instances
    {
      ConservedBut({})
    }

    constructor (count: nat, readTimeout: nat)
      ensures ConservedBut(Slots(|instances|)) && |instances| == (if count == 0 then 1 else count)
      ensures ready == [] && handed == {} && fresh(instances)
      ensures forall slot :: 0 <= slot < |instances| ==> instances[slot].phase.Held?
    {
      var created: seq<Instance> := [];
      var n := if count == 0 then 1 else count;
      for i := 0 to n
        invariant |created| == i && fresh(created)
        invariant forall j, k :: 0 <= j < k < i ==> created[j] != created[k]
        invariant forall j :: 0 <= j < i ==> created[j].phase == Held && created[j].io == NoIo
      {
        var instance := new Instance();
        created := created + [instance];
      }
      this.instances, this.readTimeout := created, readTimeout;
      ready, handed, lastActivity, clock := [], {}, 0, 0;
    }

    /** The monotonic clock. */
    method Now() returns (now: nat)
      modifies this`clock
      ensures now == clock && clock >= old(clock)
    {
      var elapsed: int := *;
      if elapsed > 0 { clock := clock + elapsed; }
      now := clock;
    }

    /** `listen` on one slot that is neither in the queue nor with the caller. */
    method Listen(slot: nat, ghost open: set<nat>) returns (r: Outcome)
      requires ConservedBut(open) && slot < |instances| && slot in open
      modifies this`ready, this`clock, instances[slot]
      ensures !r.PowerLoss?
      ensures ConservedBut(if r.Done? then open - {slot} else open)
      ensures old(ready) <= ready && clock >= old(clock)
      ensures forall i :: |old(ready)| <= i < |ready| ==> ready[i].0 == slot
      ensures instances[slot].phase.Reading? ==> instances[slot].phase.deadline >= old(clock) + readTimeout
    {
      var now := Now();
      var progress := instances[slot].Listen(now, readTimeout);
      if progress.Err? { return Failed(progress.error); }
      if progress.value.Request? { Enqueue(slot, progress.value.message); }
      r := Done;
    }

    method Enqueue(slot: nat, message: Message)
      requires !InReady(ready, slot) && DistinctSlots(ready)
      modifies this`ready
      ensures ready == old(ready) + [(slot, message)] && DistinctSlots(ready)
      ensures forall other :: InReady(ready, other) <==> InReady(old(ready), other) || other == slot
    {
      ghost var before := ready;
      ready := ready + [(slot, message)];
      assert ready[|before|].0 == slot;
      forall other ensures InReady(ready, other) <==> InReady(before, other) || other == slot {
        if InReady(before, other) {
          var i :| 0 <= i < |before| && before[i].0 == other;
          assert ready[i].0 == other;
        }
      }
    }

    /** `PipeServer::create`: every instance listens. */
    static method Create(count: nat, readTimeout: nat) returns (r: Outcome, server: PipeServer)
      ensures fresh(server) && fresh(server.instances)
      ensures r.Done? ==> server.Valid() && |server.instances| == (if count == 0 then 1 else count) && server.handed == {}
    {
      server := new PipeServer(count, readTimeout);
      ghost var open := Slots(|server.instances|);
      r := Done;
      for slot := 0 to |server.instances|
        invariant fresh(server) && fresh(server.instances)
        invariant server.ConservedBut(open) && server.handed == {} && r.Done?
        invariant forall other :: other in open <==> slot <= other < |server.instances|
      {
        r := server.Listen(slot, open);
        if !r.Done? { return; }
        open := open - {slot};
      }
      assert open == {};
    }

    /** `respond` and `release`: one answer, or none, to a request that the caller holds; then the slot
        listens again. */
    method Respond(slot: nat, withResponse: bool) returns (r: Outcome, written: Outcome)
      requires Valid() && slot in handed
      modifies this, instances[slot]
      ensures !r.PowerLoss?
      ensures ConservedBut(if r.Done? then {} else {slot})
      ensures handed == old(handed) - {slot} && old(clock) <= lastActivity
      ensures old(ready) <= ready
    {
      written := Done;
      if withResponse { written := instances[slot].Write(); }
      var now := Now();
      lastActivity := now;
      handed := handed - {slot};
      r := Listen(slot, {slot});
    }

    predicate Busy()
      reads this, instances
    {
      exists slot :: 0 <= slot < |instances| && !instances[slot].phase.Listening?
    }

    ghost predicate AllListening()
      reads this, instances
    {
      forall slot :: 0 <= slot < |instances| ==> instances[slot].phase.Listening?
    }

    /** `expire_reads`: exactly the clients whose deadline has passed are disconnected. A slot that was one of
        theirs and reads again belongs to a new client with the whole timeout before it. */
    method ExpireReads() returns (r: Outcome, now: nat, ghost failed: set<nat>)
      requires Valid()
      modifies this`ready, this`clock, instances
      ensures !r.PowerLoss?
      ensures ConservedBut(failed) && (r.Done? ==> failed == {})
      ensures old(ready) <= ready && old(clock) <= now <= clock
      ensures forall slot :: 0 <= slot < |instances| ==>
        var before := old(instances[slot].phase);
        if before.Reading? && before.deadline <= now then
          r.Done? ==> (instances[slot].phase.Reading? ==> instances[slot].phase.deadline >= now + readTimeout)
        else instances[slot].phase == before
    {
      now := Now();
      failed := {};
      r := Done;
      for slot := 0 to |instances|
        invariant Valid() && r.Done? && failed == {}
        invariant old(ready) <= ready && old(clock) <= now <= clock
        invariant forall other :: 0 <= other < |instances| && (other >= slot || !Expired(old(instances[other].phase), now)) ==>
                    instances[other].phase == old(instances[other].phase)
        invariant forall other :: 0 <= other < slot && Expired(old(instances[other].phase), now) ==>
                    Renewed(instances[other].phase, now, readTimeout)
      {
        if Expired(instances[slot].phase, now) {
          OpenIdleSlot(slot);
          r := Listen(slot, {slot});
          if !r.Done? {
            failed := {slot};
            return;
          }
        }
      }
    }

    /** A slot that is not Held is neither in the queue nor with the caller. */
    lemma OpenIdleSlot(slot: nat)
      requires Valid() && slot < |instances| && !instances[slot].phase.Held?
      ensures ConservedBut({slot})
    {}

    /** Handles the signaled event of one slot. */
    method CompleteSlot(slot: nat) returns (r: Outcome)
      requires Valid() && slot < |instances| && !instances[slot].phase.Held?
      modifies this`ready, this`clock, this`lastActivity, instances[slot]
      ensures !r.PowerLoss?
      ensures ConservedBut(if r.Done? then {} else {slot})
      ensures old(ready) <= ready && clock >= old(clock) && lastActivity >= old(lastActivity)
      ensures r.Done? && old(instances[slot].phase).Listening? && ready == old(ready) ==> lastActivity >= old(clock)
    {
      OpenIdleSlot(slot);
      var now := Now();
      var wasListening := instances[slot].phase.Listening?;
      var progress := instances[slot].Complete(now, readTimeout);
      if progress.Err? { return Failed(progress.error); }
      if progress.value.Request? {
        Enqueue(slot, progress.value.message);
      } else if wasListening {
        lastActivity := now;
      }
      r := Done;
    }

    /** The head of the queue goes to the caller. */
    method HandOut() returns (slot: nat, message: Message)
      requires Valid() && ready != []
      modifies this
      ensures Valid() && slot < |instances| && instances[slot].phase.Held?
      ensures (slot, message) == old(ready)[0] && ready == old(ready)[1..]
      ensures slot !in old(handed) && handed == old(handed) + {slot} && old(clock) <= lastActivity
    {
      ghost var before := ready;
      slot, message := ready[0].0, ready[0].1;
      assert InReady(before, slot);
      ready := ready[1..];
      handed := handed + {slot};
      var now := Now();
      lastActivity := now;
      forall other ensures InReady(before, other) <==> InReady(ready, other) || other == slot {
        if InReady(before, other) {
          var i :| 0 <= i < |before| && before[i].0 == other;
          if i > 0 { assert ready[i - 1].0 == other; }
        }
        if InReady(ready, other) {
          var i :| 0 <= i < |ready| && ready[i].0 == other;
          assert before[i + 1].0 == other;
        }
      }
      assert forall i :: 0 <= i < |ready| ==> ready[i] == before[i + 1];
    }

    /** `next_event`, for at most `waits` waits. `Idle` is returned only when every instance listens, so no
        request is in the queue or unanswered, and the idle timeout has passed since the last activity.
        A request is handed out once, in the order in which requests arrived. */
    method NextEvent(idleTimeout: nat, waits: nat) returns (r: Outcome, event: PipeEvent, ghost failed: set<nat>)
      requires Valid()
      modifies this, instances
      ensures !r.PowerLoss?
      ensures ConservedBut(failed) && (r.Done? ==> failed == {})
      ensures r.Done? && event.RequestEvent? ==>
        && event.slot < |instances| && event.slot !in old(handed) && handed == old(handed) + {event.slot}
        && instances[event.slot].phase.Held? && old(clock) <= lastActivity
      ensures waits > 0 && old(ready) != [] ==>
        r.Done? && event == RequestEvent(old(ready)[0].0, old(ready)[0].1) && ready == old(ready)[1..]
      ensures lastActivity >= old(lastActivity)
      ensures !(r.Done? && event.RequestEvent?) ==> handed == old(handed)
      ensures r.Done? && event.Idle? ==>
        && ready == [] && handed == {}
        && AllListening() && clock >= lastActivity + idleTimeout
    {
      failed := {};
      event := StillWaiting;
      for wait := 0 to waits
        invariant Valid() && handed == old(handed) && failed == {}
        invariant lastActivity >= old(lastActivity) && clock >= old(clock)
        invariant if wait == 0 then ready == old(ready) else old(ready) == []
      {
        if ready != [] {
          var slot, message := HandOut();
          return Done, RequestEvent(slot, message), {};
        }
        var couldIdle := !Busy();
        var idleDeadline := lastActivity + idleTimeout;
        var stopSignaled: bool, wakeSignaled: bool, slot: int := *, *, *;
        if stopSignaled { return Done, Stop, {}; }
        if wakeSignaled { return Done, Wake, {}; }
        if 0 <= slot < |instances| && !instances[slot].phase.Held? {
          r := CompleteSlot(slot);
          if !r.Done? { return r, event, {slot}; }
        } else {
          var now;
          r, now, failed := ExpireReads();
          if !r.Done? { return; }
          now := Now();
          if couldIdle && now >= idleDeadline && !Busy() {
            NothingUnanswered();
            return Done, Idle, {};
          }
        }
      }
      r := Done;
    }

    lemma NothingUnanswered()
      requires Valid() && !Busy()
      ensures ready == [] && handed == {}
    {
      if ready != [] { assert InReady(ready, ready[0].0); }
    }
  }

  /** Why a request loop ended; `Running` if it is still going after the given number of events. */
  datatype Ending = StopSeen | StopEvent | WentIdle | Broken(code: ErrorCode) | Running

  function HeldSlots(preparing: Option<nat>): set<nat> {
    if preparing.Some? then {preparing.value} else {}
  }

  /** One event of `serve_requests`. `preparing` is the slot of the client whose prepare runs: it stays held
      while other requests are answered, until a wake finds the worker's result. */
  method HandleEvent(server: PipeServer, event: PipeEvent, preparing: Option<nat>) returns (ending: Ending, next: Option<nat>)
    requires server.Valid()
    requires server.handed == HeldSlots(preparing) + (if event.RequestEvent? then {event.slot} else {})
    requires event.RequestEvent? ==> event.slot !in HeldSlots(preparing) && server.instances[event.slot].phase.Held?
    requires event.Idle? ==> server.ready == [] && server.AllListening()
    modifies server, server.instances
    ensures !ending.Broken? ==> server.Valid() && server.handed == HeldSlots(next)
    ensures ending.WentIdle? ==> event.Idle? && server.ready == [] && server.AllListening()
    ensures ending.WentIdle? ==> server.clock == old(server.clock) && server.lastActivity == old(server.lastActivity)
    ensures ending.StopEvent? ==> event.Stop? && next == preparing
    ensures !ending.StopSeen?
  {
    ending, next := Running, preparing;
    var slot;
    match event {
      case Stop => return StopEvent, preparing;
      case StillWaiting => return;
      case Idle =>
        var committing: bool := *;
        return if committing || preparing.Some? then Running else WentIdle, preparing;
      case Wake =>
        var finished: bool := *;
        if preparing.None? || !finished { return; }
        slot, next := preparing.value, None;
      case RequestEvent(requested, _) =>
        var isPrepare: bool := *;
        if isPrepare && preparing.None? { return Running, Some(requested); }
        slot := requested;
    }
    var r, written, answered := Done, Done, *;
    r, written := server.Respond(slot, answered);
    if r.Failed? { return Broken(r.code), next; }
  }

  /** `serve_requests`, for any number of events. Throughout, the only slot held without an answer is the one
      of the running prepare. It goes idle only with every slot listening, nothing queued, no prepare running
      and the timeout passed; a stop that its own check sees also waits for the prepare, a stop event does
      not. */
  method Serve(server: PipeServer, idleTimeout: nat, waits: nat, events: nat) returns (ending: Ending, preparing: Option<nat>)
    requires server.Valid() && server.handed == {}
    modifies server, server.instances
    ensures !ending.Broken? ==> server.Valid() && server.handed == HeldSlots(preparing)
    ensures ending.WentIdle? ==> preparing.None? && server.ready == [] && server.AllListening()
    ensures ending.WentIdle? ==> server.clock >= server.lastActivity + idleTimeout
    ensures ending.StopSeen? ==> preparing.None?
  {
    ending, preparing := Running, None;
    for i := 0 to events
      invariant server.Valid() && server.handed == HeldSlots(preparing) && ending.Running?
    {
      var stopRequested: bool, committing: bool := *, *;
      if stopRequested && !committing && preparing.None? { return StopSeen, None; }
      ghost var failed;
      var r, event;
      r, event, failed := server.NextEvent(idleTimeout, waits);
      if r.Failed? { return Broken(r.code), preparing; }
      ending, preparing := HandleEvent(server, event, preparing);
      if !ending.Running? { return; }
    }
  }

  /** `serve_startup_failure`: every request is answered with the error, and nothing is held across events. */
  method ServeStartupFailure(server: PipeServer, idleTimeout: nat, waits: nat, events: nat) returns (ending: Ending)
    requires server.Valid() && server.handed == {}
    modifies server, server.instances
    ensures !ending.Broken? ==> server.Valid() && server.handed == {}
    ensures ending.WentIdle? ==> server.ready == [] && server.AllListening()
  {
    for i := 0 to events
      invariant server.Valid() && server.handed == {}
    {
      ghost var failed;
      var r, event;
      r, event, failed := server.NextEvent(idleTimeout, waits);
      if r.Failed? { return Broken(r.code); }
      if event.Stop? { return StopEvent; }
      if event.Idle? { return WentIdle; }
      if event.RequestEvent? {
        var written;
        r, written := server.Respond(event.slot, true);
        if r.Failed? { return Broken(r.code); }
          assert server.handed == {};
      }
    }
    ending := Running;
  }
}
