/** The registry-value transaction: a Prepared/Committed journal in a protected file, the values it
    lists, and the generation floor that must be on disk before the values count as new. */
module RegistrySets {
  import opened Outcomes
  import opened Text
  import opened JobIds
  import opened ProtectedFiles
  import opened Generations

  const MAX_REGISTRY_TRANSACTION_BYTES: nat := 4 * 1024 * 1024

  /** Data with its Win32 type. */
  datatype Stored = Stored(valueType: nat, data: Bytes)

  /** The values of the scope's key by folded name. */
  type Values = map<string, Stored>

  datatype Setting = Setting(name: string, stored: Stored)

  /** One value of the journal with its snapshot. */
  datatype Change = Change(name: string, previous: Option<Stored>)

  datatype Phase = PreparedPhase | CommittedPhase

  datatype RegistryJournal = RegistryJournal(phase: Phase, scopeId: string, changes: seq<Change>)

  datatype JournalCodec = JournalCodec(encode: RegistryJournal -> Bytes, parse: Bytes -> Option<RegistryJournal>) {
    ghost predicate Faithful() { forall j :: parse(encode(j)) == Some(j) }
  }

  /** A verified registry set: its value names differ even ignoring case. */
  datatype VerifiedRegistrySet = VerifiedRegistrySet(settings: seq<Setting>, scopeId: string, record: GenerationRecord) {
    ghost predicate Valid() {
      && (forall i, j :: 0 <= i < j < |settings| ==> Lower(settings[i].name) != Lower(settings[j].name))
      && |record.digest| == DIGEST_BYTES
    }
  }

  ghost predicate Listed(changes: seq<Change>, name: string) {
    exists i :: 0 <= i < |changes| && Lower(changes[i].name) == name
  }

  /** Restoring every listed snapshot over `values` gives `goal`. */
  ghost predicate Reverts(values: Values, changes: seq<Change>, goal: Values) {
    && (forall i :: 0 <= i < |changes| ==> Lookup(goal, Lower(changes[i].name)) == changes[i].previous)
    && (forall name :: !Listed(changes, name) ==> Lookup(goal, name) == Lookup(values, name))
  }

  /** What the outstanding journal makes of the values at the next start. */
  ghost predicate Leads(values: Values, files: Trio, codec: JournalCodec, goal: Values) {
    && !Ambiguous(files)
    && match Recovered(files)
       case None => values == goal
       case Some(bytes) =>
         |bytes| <= MAX_REGISTRY_TRANSACTION_BYTES
         && match codec.parse(bytes)
            case None => false
            case Some(j) => if j.phase.PreparedPhase? then Reverts(values, j.changes, goal) else values == goal
  }

  lemma SameValues(a: Values, b: Values)
    requires forall name :: Lookup(a, name) == Lookup(b, name)
    ensures a == b
  {
    forall name ensures name in a <==> name in b { assert Lookup(a, name) == Lookup(b, name); }
    forall name | name in a ensures a[name] == b[name] { assert Lookup(a, name) == Lookup(b, name); }
  }

  /** Every listed value is new and every other one as before. */
  ghost predicate Updates(before: Values, after: Values, settings: seq<Setting>) {
    && (forall i :: 0 <= i < |settings| ==> Lookup(after, Lower(settings[i].name)) == Some(settings[i].stored))
    && (forall name :: (forall i :: 0 <= i < |settings| ==> Lower(settings[i].name) != name) ==> Lookup(after, name) == Lookup(before, name))
  }

  /** The snapshots of `create_registry_transaction`. */
  ghost predicate SnapshotsOf(changes: seq<Change>, settings: seq<Setting>, before: Values) {
    && |changes| == |settings|
    && forall i :: 0 <= i < |changes| ==> changes[i] == Change(settings[i].name, Lookup(before, Lower(settings[i].name)))
  }

  /** With the first `n` settings written, the snapshots still lead back, and with all the values are new. */
  ghost predicate Written(values: Values, before: Values, settings: seq<Setting>, n: nat) {
    && n <= |settings|
    && (forall i :: 0 <= i < n ==> Lookup(values, Lower(settings[i].name)) == Some(settings[i].stored))
    && (forall name :: (forall i :: 0 <= i < n ==> Lower(settings[i].name) != name) ==> Lookup(values, name) == Lookup(before, name))
  }

  lemma WriteNext(values: Values, before: Values, settings: seq<Setting>, n: nat)
    requires n < |settings| && Written(values, before, settings, n)
    requires forall i, j :: 0 <= i < j < |settings| ==> Lower(settings[i].name) != Lower(settings[j].name)
    ensures Written(values[Lower(settings[n].name) := settings[n].stored], before, settings, n + 1)
  {}

  lemma WrittenReverts(values: Values, before: Values, settings: seq<Setting>, n: nat, changes: seq<Change>)
    requires Written(values, before, settings, n) && SnapshotsOf(changes, settings, before)
    ensures Reverts(values, changes, before)
  {
    forall name | !Listed(changes, name) ensures Lookup(before, name) == Lookup(values, name) {
      forall i | 0 <= i < n ensures Lower(settings[i].name) != name { assert changes[i].name == settings[i].name; }
    }
  }

  // ---- restoring, fault by fault ----------------------------------------------------------

  /** One listed value put back. */
  function PutBack(values: Values, change: Change): Values {
    if change.previous.Some? then values[Lower(change.name) := change.previous.value]
    else values - {Lower(change.name)}
  }

  /** The values from the k-th on put back, last one first. */
  function PutBackFrom(values: Values, changes: seq<Change>, k: nat): Values
    requires k <= |changes|
    decreases |changes| - k
  {
    if k == |changes| then values else PutBack(PutBackFrom(values, changes, k + 1), changes[k])
  }

  /** The values from the k-th on are as in `goal`. */
  ghost predicate Restored(values: Values, changes: seq<Change>, goal: Values, k: nat) {
    forall j :: k <= j < |changes| ==> Lookup(values, Lower(changes[j].name)) == Lookup(goal, Lower(changes[j].name))
  }

  /** The fault that ended a restore: at which value it fell and what it was. */
  datatype RestoreFault = RestoreFault(at: nat, fault: Fault)

  predicate ValidStop(changes: seq<Change>, stop: Option<RestoreFault>) {
    stop.Some? ==> stop.value.at < |changes| && stop.value.fault != NoFault
  }

  /** The first value that was put back before a restore stopped. */
  function FirstPutBack(changes: seq<Change>, stop: Option<RestoreFault>): (first: nat)
    requires ValidStop(changes, stop)
    ensures first <= |changes|
  {
    if stop.None? then 0 else if stop.value.fault.Before() then stop.value.at + 1 else stop.value.at
  }

  /** What the service reports of a fault in these steps. */
  function Incomplete(fault: Fault): Outcome {
    if fault.IsError() then Failed(RecoveryIncomplete) else fault.Report()
  }

  /** `restore_registry_values` under a given fault. */
  function RestoreRun(values: Values, changes: seq<Change>, stop: Option<RestoreFault>): (Values, Outcome)
    requires ValidStop(changes, stop)
  {
    (PutBackFrom(values, changes, FirstPutBack(changes, stop)), if stop.None? then Done else Incomplete(stop.value.fault))
  }

  /** `remove_registry_transaction` under a given fault. */
  function RemovalRun(files: Trio, fault: Fault): (Trio, Outcome) {
    if files.main.None? then (files, Done)
    else (if fault.Before() then files else files.(main := None), Incomplete(fault))
  }

  /** The fault behind an outcome, by whether its step took effect. */
  function StopFault(r: Outcome, before: bool): (fault: Fault)
    ensures fault.Report() == r
    ensures r != Done ==> fault.Before() == before
  {
    match r
    case Done => NoFault
    case Failed(code) => if before then FailBefore(code) else FailAfter(code)
    case PowerLoss => if before then LossBefore else LossAfter
  }

  /** The values of the key and the two protected files beside them. */
  class RegistryStore {
    const codec: JournalCodec
    const journalFile: ProtectedFile
    const generations: GenerationStore
    /** The only faults of the registry calls are power losses. */
    const lossOnly: bool
    var values: Values
    ghost var disturbed: bool

    constructor (codec: JournalCodec, journalFile: ProtectedFile, generations: GenerationStore, lossOnly: bool, values: Values)
      ensures this.codec == codec && this.journalFile == journalFile && this.generations == generations
      ensures this.lossOnly == lossOnly && this.values == values && !disturbed
    {
      this.codec, this.journalFile, this.generations, this.values := codec, journalFile, generations, values;
      this.lossOnly := lossOnly;
      disturbed := false;
    }

    ghost predicate Valid()
      reads this, generations
    {
      && codec.Faithful() && generations.codec.Faithful()
      && journalFile.wholeWrites && generations.file.wholeWrites && journalFile != generations.file
      && ValidFloors(generations.floors)
    }

    /** A completed recovery leaves exactly `goal`. */
    ghost predicate RestoresTo(goal: Values)
      reads this, journalFile
    {
      Leads(values, journalFile.files, codec, goal)
    }

    method Check() returns (r: Outcome)
      modifies this`disturbed
      ensures old(disturbed) ==> disturbed
      ensures !disturbed ==> r.Done?
    {
      var drawn: Fault := *;
      var fault := drawn.Within(lossOnly);
      disturbed := disturbed || fault != NoFault;
      r := fault.Report();
    }

    /** `set_registry_value`, and the restore of a snapshot that existed. */
    method SetValue(name: string, stored: Stored) returns (r: Outcome)
      modifies this`values, this`disturbed
      ensures old(disturbed) ==> disturbed
      ensures !disturbed ==> r.Done?
      ensures lossOnly ==> !r.Failed?
      ensures r.Done? ==> values == old(values)[Lower(name) := stored]
      ensures values == old(values) || values == old(values)[Lower(name) := stored]
    {
      var drawn: Fault := *;
      var fault := drawn.Within(lossOnly);
      disturbed := disturbed || fault != NoFault;
      if !fault.Before() { values := values[Lower(name) := stored]; }
      r := fault.Report();
    }

    /** `RegDeleteValueW`; a missing value is no error. */
    method DeleteValue(name: string) returns (r: Outcome)
      modifies this`values, this`disturbed
      ensures old(disturbed) ==> disturbed
      ensures !disturbed ==> r.Done?
      ensures lossOnly ==> !r.Failed?
      ensures r.Done? ==> values == old(values) - {Lower(name)}
      ensures values == old(values) || values == old(values) - {Lower(name)}
    {
      var drawn: Fault := *;
      var fault := drawn.Within(lossOnly);
      disturbed := disturbed || fault != NoFault;
      if !fault.Before() { values := values - {Lower(name)}; }
      r := fault.Report();
    }

    method RestoreValue(change: Change) returns (r: Outcome)
      modifies this`values, this`disturbed
      ensures old(disturbed) ==> disturbed
      ensures !disturbed ==> r.Done?
      ensures lossOnly ==> !r.Failed?
      ensures r.Done? ==> values == PutBack(old(values), change)
      ensures values == old(values) || values == PutBack(old(values), change)
    {
      if change.previous.Some? {
        r := SetValue(change.name, change.previous.value);
      } else {
        r := DeleteValue(change.name);
      }
    }

    /** `restore_registry_values`, last value first. `stop` is the fault that ended it, if one did: the
        values are then exactly those that `RestoreRun` computes from it. Wherever it stops the snapshots
        still lead to where they led; if it completes, the values are there. */
    method RestoreValues(changes: seq<Change>, ghost goal: Values) returns (r: Outcome, ghost stop: Option<RestoreFault>)
      modifies this`values, this`disturbed
      ensures old(disturbed) ==> disturbed
      ensures !disturbed ==> r.Done?
      ensures ValidStop(changes, stop) && (values, r) == RestoreRun(old(values), changes, stop)
      ensures lossOnly && stop.Some? ==> !stop.value.fault.IsError()
      ensures old(Reverts(values, changes, goal)) ==> Reverts(values, changes, goal) && (r.Done? ==> values == goal)
    {
      ghost var start := values;
      ghost var leads := Reverts(values, changes, goal);
      for k := |changes| downto 0
        invariant old(disturbed) ==> disturbed
        invariant values == PutBackFrom(start, changes, k)
        invariant leads ==> Reverts(values, changes, goal)
        invariant leads ==> Restored(values, changes, goal, k)
      {
        ghost var before := values;
        r := RestoreValue(changes[k]);
        if leads { RestoreKeeps(before, values, changes, k, goal); }
        if !r.Done? {
          stop := Some(RestoreFault(k, StopFault(r, values != PutBack(before, changes[k]))));
          return if r.Failed? then Failed(RecoveryIncomplete) else r, stop;
        }
        if leads { RestoredNext(before, values, changes, k, goal); }
      }
      if leads { AllRestored(values, changes, goal); }
      r, stop := Done, None;
    }

    /** `write_registry_transaction`. */
    method WriteJournal(j: RegistryJournal) returns (r: Outcome)
      requires Valid()
      modifies journalFile
      ensures old(journalFile.disturbed) ==> journalFile.disturbed
      ensures r.Done? ==>
        && journalFile.files == Trio(Some(codec.encode(j)), None, None)
        && |codec.encode(j)| <= MAX_REGISTRY_TRANSACTION_BYTES
      ensures journalFile.files == old(journalFile.files)
        || (&& Tidy(old(journalFile.files)) && |codec.encode(j)| <= MAX_REGISTRY_TRANSACTION_BYTES
            && Replacing(journalFile.files, old(journalFile.files).main, codec.encode(j), codec.encode(j)))
      ensures Tidy(old(journalFile.files)) && |codec.encode(j)| <= MAX_REGISTRY_TRANSACTION_BYTES ==>
        (!journalFile.disturbed ==> r.Done?) && (journalFile.lossOnly ==> !r.Failed?)
      ensures |codec.encode(j)| > MAX_REGISTRY_TRANSACTION_BYTES ==> journalFile.files == old(journalFile.files)
    {
      var bytes := codec.encode(j);
      if |bytes| > MAX_REGISTRY_TRANSACTION_BYTES { return Failed(RegistrySetLimit); }
      r := journalFile.Replace(bytes);
    }

    /** `remove_registry_transaction`: only the main file, whatever else a failed write left. */
    method RemoveJournal() returns (r: Outcome, ghost fault: Fault)
      modifies journalFile`files, journalFile`disturbed
      ensures old(journalFile.disturbed) ==> journalFile.disturbed
      ensures !journalFile.disturbed ==> r.Done?
      ensures (journalFile.files, r) == RemovalRun(old(journalFile.files), fault)
      ensures journalFile.lossOnly ==> !fault.IsError()
    {
      r, fault := Done, NoFault;
      if journalFile.files.main.Some? {
        ghost var before := journalFile.files;
        r := journalFile.RemoveFile(Main);
        fault := StopFault(r, journalFile.files == before);
        if r.Failed? { r := Failed(RecoveryIncomplete); }
      }
    }

    /** `recover_registry_transaction`. `registered` says that the journal's scope is still registered
        as it was. */
    method Recover(registered: bool, ghost goal: Values) returns (r: Outcome)
      requires Valid()
      modifies this`values, this`disturbed, journalFile`files, journalFile`disturbed
      ensures old(disturbed) ==> disturbed
      ensures old(journalFile.disturbed) ==> journalFile.disturbed
      ensures Valid()
      ensures r.Done? ==> journalFile.files == Trio(None, None, None)
      ensures old(RestoresTo(goal)) ==>
        && RestoresTo(goal)
        && (r.Done? ==> values == goal)
        && (registered && !disturbed && !journalFile.disturbed ==> r.Done?)
    {
      ghost var leads := RestoresTo(goal);
      r := journalFile.Recover();
      if !r.Done? { return; }
      if journalFile.files.main.None? { return; }
      var bytes := journalFile.files.main.value;
      if |bytes| > MAX_REGISTRY_TRANSACTION_BYTES { return Failed(RecoveryIncomplete); }
      var journal := codec.parse(bytes);
      if journal.None? { return Failed(JsonInvalid); }
      if !registered { return Failed(RecoveryIncomplete); }
      if journal.value.phase.PreparedPhase? {
        ghost var stop;
        r, stop := RestoreValues(journal.value.changes, goal);
        if !r.Done? { return; }
        if leads { AlreadyReverted(goal, journal.value.changes); }
      }
      ghost var fault;
      r, fault := RemoveJournal();
    }
  }

  lemma AllRestored(values: Values, changes: seq<Change>, goal: Values)
    requires Reverts(values, changes, goal) && Restored(values, changes, goal, 0)
    ensures values == goal
  {
    forall name ensures Lookup(values, name) == Lookup(goal, name) {
      if Listed(changes, name) { var i :| 0 <= i < |changes| && Lower(changes[i].name) == name; }
    }
    SameValues(values, goal);
  }

  lemma RestoredNext(before: Values, after: Values, changes: seq<Change>, k: nat, goal: Values)
    requires k < |changes| && Reverts(before, changes, goal) && Restored(before, changes, goal, k + 1)
    requires after == PutBack(before, changes[k])
    ensures Restored(after, changes, goal, k)
  {}

  lemma RestoreKeeps(before: Values, after: Values, changes: seq<Change>, k: nat, goal: Values)
    requires k < |changes| && Reverts(before, changes, goal)
    requires after == before || after == PutBack(before, changes[k])
    ensures Reverts(after, changes, goal)
  {
    forall name | !Listed(changes, name) ensures Lookup(goal, name) == Lookup(after, name) {
      assert name != Lower(changes[k].name);
    }
  }

  lemma AlreadyReverted(goal: Values, changes: seq<Change>)
    requires forall i :: 0 <= i < |changes| ==> Lookup(goal, Lower(changes[i].name)) == changes[i].previous
    ensures Reverts(goal, changes, goal)
  {}
}
