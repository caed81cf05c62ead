/** Replacement of a protected service file by two renames, and its recovery. The registry journal,
    the generation floors and the upgrade journal are all written this way. */
module ProtectedFiles {
  import opened Outcomes
  import opened Text

  type Bytes = seq<byte>

  /** The file itself, its `.new` replacement and its `.bak` backup. */
  datatype Trio = Trio(main: Option<Bytes>, staged: Option<Bytes>, backup: Option<Bytes>)

  predicate Tidy(t: Trio) { t.staged.None? && t.backup.None? }

  /** All three exist: the one state that recovery refuses. */
  predicate Ambiguous(t: Trio) { t.main.Some? && t.staged.Some? && t.backup.Some? }

  /** The content that a completed recovery leaves. */
  function Recovered(t: Trio): Option<Bytes> {
    if t.main.Some? then t.main else if t.staged.Some? then t.staged else t.backup
  }

  /** Where replacing `before` by `bytes` can stop. `part` is what the interrupted write left. */
  ghost predicate Replacing(t: Trio, before: Option<Bytes>, bytes: Bytes, part: Bytes) {
    || t == Trio(before, None, None)
    || t == Trio(before, Some(part), None)
    || (before.Some? && t == Trio(None, Some(bytes), before))
    || (before.Some? && t == Trio(Some(bytes), None, before))
    || t == Trio(Some(bytes), None, None)
  }

  datatype Name = Main | Staged | Backup

  function Get(t: Trio, name: Name): Option<Bytes> {
    match name
    case Main => t.main
    case Staged => t.staged
    case Backup => t.backup
  }

  function Set(t: Trio, name: Name, content: Option<Bytes>): Trio {
    match name
    case Main => t.(main := content)
    case Staged => t.(staged := content)
    case Backup => t.(backup := content)
  }

  function Moved(t: Trio, from: Name, to: Name): Trio { Set(Set(t, to, Get(t, from)), from, None) }

  class ProtectedFile {
    /** A fault never leaves part of a temporary file. */
    const wholeWrites: bool
    /** The only faults are power losses. */
    const lossOnly: bool
    var files: Trio
    /** Some step drew a fault. */
    ghost var disturbed: bool
    /** A fault left only part of a temporary file. */
    ghost var tornWrite: bool

    constructor (content: Option<Bytes>, wholeWrites: bool, lossOnly: bool)
      ensures files == Trio(content, None, None) && !disturbed && !tornWrite
      ensures this.wholeWrites == wholeWrites && this.lossOnly == lossOnly
    {
      this.wholeWrites, this.lossOnly := wholeWrites, lossOnly;
      files, disturbed, tornWrite := Trio(content, None, None), false, false;
    }

    /** `fs::rename`: on Windows it replaces an existing destination. */
    method Rename(from: Name, to: Name) returns (r: Outcome)
      requires Get(files, from).Some? && from != to
      modifies this`files, this`disturbed
      ensures old(disturbed) ==> disturbed
      ensures !disturbed ==> r.Done?
      ensures lossOnly ==> !r.Failed?
      ensures r.Done? ==> files == Moved(old(files), from, to)
      ensures files == old(files) || files == Moved(old(files), from, to)
    {
      var drawn: Fault := *;
      var fault := drawn.Within(lossOnly);
      disturbed := disturbed || fault != NoFault;
      if !fault.Before() { files := Moved(files, from, to); }
      r := fault.Report();
    }

    method RemoveFile(name: Name) returns (r: Outcome)
      requires Get(files, name).Some?
      modifies this`files, this`disturbed
      ensures old(disturbed) ==> disturbed
      ensures !disturbed ==> r.Done?
      ensures lossOnly ==> !r.Failed?
      ensures r.Done? ==> files == Set(old(files), name, None)
      ensures files == old(files) || files == Set(old(files), name, None)
    {
      var drawn: Fault := *;
      var fault := drawn.Within(lossOnly);
      disturbed := disturbed || fault != NoFault;
      if !fault.Before() { files := Set(files, name, None); }
      r := fault.Report();
    }

    /** Create, write and flush the temporary file: a fault leaves none, or any first part of it. */
    method WriteStaged(bytes: Bytes) returns (r: Outcome)
      requires files.staged.None?
      modifies this
      ensures old(disturbed) ==> disturbed
      ensures !disturbed ==> r.Done?
      ensures lossOnly ==> !r.Failed?
      ensures r.Done? ==> files.staged == Some(bytes)
      ensures files == old(files) || (files.staged.Some? && files == old(files).(staged := files.staged))
      ensures files.staged.Some? ==> files.staged.value <= bytes
      ensures tornWrite == (old(tornWrite) || (files.staged.Some? && files.staged.value != bytes))
      ensures wholeWrites ==> tornWrite == old(tornWrite) && files.staged in {None, Some(bytes)}
    {
      var drawn: Fault := *;
      var fault := drawn.Within(lossOnly);
      disturbed := disturbed || fault != NoFault;
      if fault.Before() {
        var created: bool, length: int := *, *;
        if created && !wholeWrites && 0 <= length < |bytes| {
          files, tornWrite := files.(staged := Some(bytes[..length])), true;
        }
        return fault.Report();
      }
      files := files.(staged := Some(bytes));
      return fault.Report();
    }

    /** `replace_service_file`. However it ends, recovery leaves the old content or the new one; a
        first creation can instead leave part of the new content, but only if a fault hit the write of
        the temporary file. Ok means new and nothing left over. The three-file state never arises. */
    method Replace(bytes: Bytes) returns (r: Outcome)
      modifies this
      ensures old(disturbed) ==> disturbed
      ensures !Tidy(old(files)) ==> r == Failed(TransactionConflict) && files == old(files) && tornWrite == old(tornWrite)
      ensures Tidy(old(files)) ==>
        && (exists part ::
              && part <= bytes && Replacing(files, old(files).main, bytes, part)
              && (part != bytes ==> tornWrite && !wholeWrites))
        && (Recovered(files) in {old(files).main, Some(bytes)}
            || (&& old(files).main.None? && tornWrite && !wholeWrites
                && Recovered(files).Some? && Recovered(files).value <= bytes))
        && !Ambiguous(files)
        && (!disturbed ==> r.Done?)
        && (lossOnly ==> !r.Failed?)
      ensures r.Done? ==> files == Trio(Some(bytes), None, None) && tornWrite == old(tornWrite)
      ensures wholeWrites ==> tornWrite == old(tornWrite)
    {
      if files.staged.Some? || files.backup.Some? { return Failed(TransactionConflict); }
      ghost var before := files.main;
      assert Replacing(files, before, bytes, bytes);
      r := WriteStaged(bytes);
      assert files.staged.Some? ==> Replacing(files, before, bytes, files.staged.value);
      if !r.Done? { return; }
      if files.main.Some? {
        r := Rename(Main, Backup);
        assert Replacing(files, before, bytes, bytes);
        if !r.Done? { return; }
      }
      r := Rename(Staged, Main);
      assert Replacing(files, before, bytes, bytes);
      if r.PowerLoss? { return; }
      if r.Failed? {
        if files.backup.Some? {
          var undone := Rename(Backup, Main);
          assert Replacing(files, before, bytes, bytes);
          if undone.PowerLoss? { return PowerLoss; }
        }
        return Failed(TransactionIo);
      }
      if files.backup.Some? {
        r := RemoveFile(Backup);
        assert Replacing(files, before, bytes, bytes);
        if r.Failed? { return Failed(TransactionIo); }
      }
    }

    /** `recover_service_file_replacement`: wherever it stops it keeps what recovery leaves; if it
        completes, that content is in place and nothing else is. */
    method Recover() returns (r: Outcome)
      modifies this`files, this`disturbed
      ensures old(disturbed) ==> disturbed
      ensures Ambiguous(old(files)) ==> r == Failed(TransactionState) && files == old(files)
      ensures !Ambiguous(old(files)) ==> !Ambiguous(files) && Recovered(files) == Recovered(old(files))
      ensures r.Done? ==> files == Trio(Recovered(old(files)), None, None)
      ensures !disturbed && !Ambiguous(old(files)) ==> r.Done?
      ensures lossOnly && !Ambiguous(old(files)) ==> !r.Failed?
    {
      match (files.main, files.staged, files.backup) {
        case (Some(_), Some(_), None) =>
          r := RemoveFile(Staged);
        case (None, Some(_), Some(_)) =>
          r := Rename(Staged, Main);
          if r.Done? { r := RemoveFile(Backup); }
        case (Some(_), None, Some(_)) =>
          r := RemoveFile(Backup);
        case (None, None, Some(_)) =>
          r := Rename(Backup, Main);
        case (None, Some(_), None) =>
          r := Rename(Staged, Main);
        case (Some(_), Some(_), Some(_)) =>
          return Failed(TransactionState);
        case (Some(_), None, None) =>
          r := Done;
        case (None, None, None) =>
          r := Done;
      }
      if r.Failed? { r := Failed(TransactionIo); }
    }

    /** A replacement and then any number of starts, each of which recovers, until one completes. */
    method ReplaceAcrossCrashes(bytes: Bytes, boots: nat) returns (written: Outcome, recovered: bool)
      requires Tidy(files) && !tornWrite
      modifies this
      ensures old(files).main.Some? ==> Recovered(files) in {old(files).main, Some(bytes)}
      ensures old(files).main.None? ==>
        Recovered(files) in {None, Some(bytes)} || (tornWrite && Recovered(files).value <= bytes)
      ensures written.Done? ==> Recovered(files) == Some(bytes)
      ensures recovered ==> Tidy(files)
      ensures recovered && old(files).main.Some? ==> files.main == old(files).main || files.main == Some(bytes)
      ensures recovered && written.Done? ==> files == Trio(Some(bytes), None, None)
      ensures !Ambiguous(files)
    {
      written := Replace(bytes);
      ghost var settled, torn := Recovered(files), tornWrite;
      recovered := false;
      for boot := 0 to boots
        invariant !Ambiguous(files) && Recovered(files) == settled && tornWrite == torn
        invariant recovered ==> Tidy(files)
      {
        var r := Recover();
        if r.Done? { return written, true; }
      }
    }
  }

  /** Replacing an existing file switches at the rename of the old file to its backup: before it
      recovery leaves the old content, from then on the new one. */
  lemma SwitchIsTheBackupRename(before: Bytes, bytes: Bytes, t: Trio, part: Bytes)
    requires Replacing(t, Some(before), bytes, part) && before != bytes
    ensures !Ambiguous(t)
    ensures Recovered(t) == Some(before) <==> t.main == Some(before)
    ensures Recovered(t) == Some(bytes) <==> t.main != Some(before)
  {}
}
