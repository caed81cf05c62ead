/** The accepted generations: one floor per root, kept in a protected file, and the order in which
    prepares, commits and restarts may move it. */
module Generations {
  import opened Outcomes
  import opened Text
  import opened JobIds
  import opened ProtectedFiles

  const MAX_GENERATION_REGISTRY_BYTES: nat := 1024 * 1024

  datatype GenerationRecord = GenerationRecord(generation: nat, digest: seq<byte>)

  type Floors = map<string, GenerationRecord>

  /** Not older, and no other digest for the same generation. */
  predicate Follows(previous: GenerationRecord, next: GenerationRecord) {
    next.generation > previous.generation || next == previous
  }

  /** The ordering check of `verify_file_set`. */
  function VerifyGeneration(previous: Option<GenerationRecord>, next: GenerationRecord): (r: Outcome)
    ensures r.Done? <==> previous.None? || Follows(previous.value, next)
  {
    if previous.None? then Done
    else if next.generation < previous.value.generation then Failed(FileSetRollback)
    else if next.generation == previous.value.generation && next.digest != previous.value.digest then Failed(GenerationConflict)
    else Done
  }

  /** `GenerationRegistry::accept`. */
  function Accept(floors: Floors, rootId: string, record: GenerationRecord): (r: Result<Floors>)
    ensures r.Ok? <==>
      && ValidIdentifier(rootId) && record.generation != 0
      && (rootId in floors ==>
            || record.generation > floors[rootId].generation
            || (record.generation == floors[rootId].generation && record.digest == floors[rootId].digest))
    ensures r.Ok? ==> Extends(floors, r.value) && rootId in r.value && r.value[rootId] == record
  {
    if !ValidIdentifier(rootId) || record.generation == 0 then Err(GenerationConflict)
    else if rootId in floors && (|| record.generation < floors[rootId].generation
                                 || (record.generation == floors[rootId].generation && record.digest != floors[rootId].digest))
    then Err(GenerationConflict)
    else Ok(floors[rootId := record])
  }

  /** No floor is lost, goes down or changes the digest of its generation. */
  ghost predicate Extends(a: Floors, b: Floors) {
    forall root :: root in a ==> root in b && Follows(a[root], b[root])
  }

  predicate ValidFloors(floors: Floors) {
    forall root :: root in floors ==> ValidIdentifier(root) && floors[root].generation != 0 && |floors[root].digest| == DIGEST_BYTES
  }

  /** The canonical JSON of the registry document and its parser. */
  datatype Codec = Codec(encode: Floors -> Bytes, parse: Bytes -> Option<Floors>) {
    ghost predicate Faithful() { forall floors :: parse(encode(floors)) == Some(floors) }
  }

  /** `GenerationRegistry` with its file. */
  class GenerationStore {
    const codec: Codec
    const file: ProtectedFile
    var floors: Floors

    constructor (codec: Codec, file: ProtectedFile)
      ensures this.codec == codec && this.file == file && floors == map[]
    {
      this.codec, this.file, floors := codec, file, map[];
    }

    /** What a later start reads; None is a file that it refuses. */
    function Persisted(): Option<Floors>
      reads file
    {
      if Ambiguous(file.files) then None
      else match Recovered(file.files)
        case None => Some(map[])
        case Some(bytes) =>
          var parsed := codec.parse(bytes);
          if parsed.Some? && ValidFloors(parsed.value) && |bytes| <= MAX_GENERATION_REGISTRY_BYTES then parsed else None
    }

    /** `GenerationRegistry::load`. */
    method Load() returns (r: Outcome)
      modifies this, file`files, file`disturbed
      ensures old(file.disturbed) ==> file.disturbed
      ensures Persisted() == old(Persisted())
      ensures r.Done? ==> Persisted() == Some(floors) && Tidy(file.files)
      ensures old(Persisted()).Some? && !file.disturbed ==> r.Done?
    {
      r := file.Recover();
      if !r.Done? { return; }
      var main := file.files.main;
      if main.None? {
        floors := map[];
        return;
      }
      if |main.value| > MAX_GENERATION_REGISTRY_BYTES { return Failed(TransactionState); }
      var document := codec.parse(main.value);
      if document.None? || !ValidFloors(document.value) { return Failed(TransactionState); }
      floors := document.value;
    }

    /** `GenerationRegistry::save`: with whole temporary writes a later start reads the saved floors or
        the ones before, whatever happens; after success, the saved ones. */
    method Save() returns (r: Outcome)
      requires codec.Faithful() && ValidFloors(floors) && file.wholeWrites
      modifies file
      ensures old(file.disturbed) ==> file.disturbed
      ensures Persisted() == old(Persisted()) || Persisted() == Some(floors)
      ensures r.Done? ==> Persisted() == Some(floors) && Tidy(file.files)
      ensures !Tidy(old(file.files)) ==> !r.Done?
      ensures Ambiguous(file.files) ==> Ambiguous(old(file.files))
      ensures Tidy(old(file.files)) && !file.disturbed && |codec.encode(floors)| <= MAX_GENERATION_REGISTRY_BYTES ==> r.Done?
    {
      var bytes := codec.encode(floors);
      if |bytes| > MAX_GENERATION_REGISTRY_BYTES { return Failed(TransactionState); }
      r := file.Replace(bytes);
    }
  }
}
