/** Identifiers and the job ID `<rootId>-<generation>-<digest>` of a file-set transaction. */
module JobIds {
  import opened Outcomes
  import opened Text

  const MAX_JOB_ID_BYTES: nat := 64 + 1 + 20 + 1 + 64
  const DIGEST_BYTES: nat := 32

  predicate IdentifierChar(c: char) { IsLowerLetter(c) || IsDigit(c) || c in "._-" }

  /** `valid_identifier`. */
  predicate ValidIdentifier(value: string) {
    && value != ""
    && |value| <= 64
    && (IsLowerLetter(value[0]) || IsUpperLetter(value[0]) || IsDigit(value[0]))
    && forall i :: 0 <= i < |value| ==> IdentifierChar(value[i])
  }

  /** `valid_internal_job_id`. */
  predicate ValidInternalJobId(value: string) {
    value != "" && |value| <= 256 && forall i :: 0 <= i < |value| ==> IdentifierChar(value[i])
  }

  datatype JobKey = JobKey(rootId: string, generation: nat, digest: seq<byte>) {
    predicate Valid() {
      ValidIdentifier(rootId) && 0 < generation <= U64_MAX && |digest| == DIGEST_BYTES
    }
  }

  function FormatJobId(k: JobKey): string {
    k.rootId + "-" + Decimal(k.generation) + "-" + EncodeHex(k.digest)
  }

  /** `rsplitn(3, '-')`: the part after the last '-', the part before it, and all the rest. */
  function SplitFromRight(s: string): (r: Option<(string, string, string)>)
    ensures r.Some? ==> s == r.value.2 + "-" + r.value.1 + "-" + r.value.0
    ensures r.Some? ==> '-' !in r.value.0 && '-' !in r.value.1
  {
    var last := LastIndex(s, '-');
    if last.None? then None
    else
      var head := s[..last.value];
      var middle := LastIndex(head, '-');
      if middle.None? then None
      else
        assert s == s[..last.value] + "-" + s[last.value + 1..];
        assert head == head[..middle.value] + "-" + head[middle.value + 1..];
        Some((s[last.value + 1..], head[middle.value + 1..], head[..middle.value]))
  }

  /** `valid_job_identifier`. */
  predicate ValidJobIdentifier(value: string) {
    |value| <= MAX_JOB_ID_BYTES
    && var parts := SplitFromRight(value);
    parts.Some?
    && ValidIdentifier(parts.value.2)
    && |parts.value.0| == 64
    && IsHex(parts.value.0)
    && var generation := ParseU64(parts.value.1);
    generation.Some? && generation.value > 0 && Decimal(generation.value) == parts.value.1
  }

  /** `generation_from_job_id`. */
  function GenerationFromJobId(jobId: string): Option<JobKey> {
    if !ValidJobIdentifier(jobId) then None
    else
      var parts := SplitFromRight(jobId).value;
      Some(JobKey(parts.2, ParseU64(parts.1).value, HexBytes(parts.0)))
  }

  lemma SplitOfFormatted(a: string, b: string, c: string)
    requires '-' !in b && '-' !in c
    ensures SplitFromRight(a + "-" + b + "-" + c) == Some((c, b, a))
  {
    var s := a + "-" + b + "-" + c;
    LastIndexOfJoined(a + "-" + b, '-', c);
    LastIndexOfJoined(a, '-', b);
    assert s[..|a + "-" + b|] == a + "-" + b;
    assert s[|a + "-" + b| + 1..] == c;
    assert (a + "-" + b)[..|a|] == a;
    assert (a + "-" + b)[|a| + 1..] == b;
  }

  lemma HexHasNoDash(bytes: seq<byte>)
    ensures '-' !in EncodeHex(bytes)
  {
    HexBytesOfEncodeHex(bytes);
    assert HexNibble('-').None?;
  }

  lemma ParseOfDecimal(n: nat)
    requires n <= U64_MAX
    ensures ParseU64(Decimal(n)) == Some(n)
  {
    DecimalValueOfDecimal(n);
    assert IsDigit(Decimal(n)[0]);
  }

  /** Formatting then reading gives back every valid triple, even when the root ID holds or ends
      with a dash. */
  lemma JobIdReadsBack(k: JobKey)
    requires k.Valid()
    ensures |FormatJobId(k)| <= MAX_JOB_ID_BYTES
    ensures FormatJobId(k) == k.rootId + "-" + Decimal(k.generation) + "-" + EncodeHex(k.digest)
    ensures GenerationFromJobId(FormatJobId(k)) == Some(k)
    ensures ValidInternalJobId(FormatJobId(k))
  {
    var generation, digest := Decimal(k.generation), EncodeHex(k.digest);
    U64HasAtMostTwentyDigits(k.generation);
    HexHasNoDash(k.digest);
    HexBytesOfEncodeHex(k.digest);
    assert '-' !in generation by { assert !IsDigit('-'); }
    SplitOfFormatted(k.rootId, generation, digest);
    ParseOfDecimal(k.generation);
    IdentifierCharacters(k);
  }

  lemma IdentifierCharacters(k: JobKey)
    requires k.Valid()
    ensures forall i :: 0 <= i < |FormatJobId(k)| ==> IdentifierChar(FormatJobId(k)[i])
  {
    var digest := EncodeHex(k.digest);
    HexBytesOfEncodeHex(k.digest);
    forall i | 0 <= i < |digest| ensures IdentifierChar(digest[i]) { assert HexNibble(digest[i]).Some?; }
  }

  /** Reading accepts a string exactly when it is the image of a valid triple, and then of the one
      triple it returns. */
  lemma JobIdsAreExactlyTheFormattedKeys(s: string)
    ensures GenerationFromJobId(s).Some? <==> exists k: JobKey :: k.Valid() && FormatJobId(k) == s
    ensures forall k: JobKey :: k.Valid() && FormatJobId(k) == s ==> GenerationFromJobId(s) == Some(k)
  {
    forall k: JobKey | k.Valid() && FormatJobId(k) == s ensures GenerationFromJobId(s) == Some(k) {
      JobIdReadsBack(k);
    }
    if GenerationFromJobId(s).Some? {
      var k := GenerationFromJobId(s).value;
      assert k.Valid() && FormatJobId(k) == s;
    }
  }
}
