/** Service releases: their versions, the decision between install, keep and upgrade, and the phases of
    the upgrade journal. */
module ServiceUpgrades {
  import opened Outcomes
  import opened Text

  const PROTOCOL_MAJOR: nat := 1

  datatype Version = Version(major: nat, minor: nat, patch: nat) {
    predicate Valid() { major <= U64_MAX && minor <= U64_MAX && patch <= U64_MAX }

    /** The derived ordering of `ServiceVersion`: field by field. */
    predicate Less(other: Version) {
      || major < other.major
      || (major == other.major && minor < other.minor)
      || (major == other.major && minor == other.minor && patch < other.patch)
    }
  }

  const RADIX: nat := U64_MAX + 1

  /** The version as one number: the components are its digits, the major one first. */
  function Weight(v: Version): nat { v.major * RADIX * RADIX + v.minor * RADIX + v.patch }

  /** The order of versions is the order of these numbers, and each number is one version's. */
  lemma OrderIsByWeight(v: Version, w: Version)
    requires v.Valid() && w.Valid()
    ensures v.Less(w) <==> Weight(v) < Weight(w)
    ensures v == w <==> Weight(v) == Weight(w)
  {
    assert Weight(v) == (v.major * RADIX + v.minor) * RADIX + v.patch;
    assert Weight(w) == (w.major * RADIX + w.minor) * RADIX + w.patch;
  }

  // ---- version text -----------------------------------------------------------------------

  /** `parse_version_component`: a canonical decimal numeral that fits 64 bits. */
  function ParseComponent(s: string): Option<nat> {
    if s == "" || (|s| > 1 && s[0] == '0') || !AllDigits(s) then None
    else if DecimalValue(s) > U64_MAX then None
    else Some(DecimalValue(s))
  }

  function ParseVersion(s: string): Option<Version> {
    var parts := Split(s, '.');
    if |parts| != 3 then None
    else
      var major, minor, patch := ParseComponent(parts[0]), ParseComponent(parts[1]), ParseComponent(parts[2]);
      if major.None? || minor.None? || patch.None? then None
      else Some(Version(major.value, minor.value, patch.value))
  }

  function FormatVersion(v: Version): string {
    Decimal(v.major) + "." + Decimal(v.minor) + "." + Decimal(v.patch)
  }

  lemma DecimalSnoc(n: nat, d: nat)
    requires n >= 1 && d < 10
    ensures Decimal(10 * n + d) == Decimal(n) + [DigitChar(d)]
  {
    assert (10 * n + d) / 10 == n && (10 * n + d) % 10 == d;
  }

  lemma DecimalValueSnoc(front: string, last: char)
    requires AllDigits(front) && IsDigit(last)
    ensures AllDigits(front + [last]) && DecimalValue(front + [last]) == 10 * DecimalValue(front) + DigitValue(last)
  {
    assert (front + [last])[..|front|] == front;
  }

  lemma {:induction false} CanonicalNumeral(s: string)
    requires s != "" && AllDigits(s) && (|s| > 1 ==> s[0] != '0')
    ensures Decimal(DecimalValue(s)) == s
    ensures s[0] != '0' ==> DecimalValue(s) >= 1
  {
    var front, last := s[..|s| - 1], s[|s| - 1];
    assert s == front + [last];
    DecimalValueSnoc(front, last);
    if front == "" {
      assert DecimalValue(front) == 0;
    } else {
      CanonicalNumeral(front);
      DecimalSnoc(DecimalValue(front), DigitValue(last));
    }
  }

  lemma {:induction false} DecimalIsCanonical(n: nat)
    ensures n > 0 ==> Decimal(n)[0] != '0'
    ensures |Decimal(n)| > 1 ==> n >= 10
  {
    if n >= 10 { DecimalIsCanonical(n / 10); }
  }

  lemma ParseOfComponent(n: nat)
    requires n <= U64_MAX
    ensures ParseComponent(Decimal(n)) == Some(n)
  {
    DecimalValueOfDecimal(n);
    DecimalIsCanonical(n);
  }

  function Join(parts: seq<string>, c: char): string
    requires parts != []
  {
    if |parts| == 1 then parts[0] else parts[0] + [c] + Join(parts[1..], c)
  }

  lemma {:induction false} JoinOfSplit(s: string, c: char)
    ensures Join(Split(s, c), c) == s
  {
    if s != "" {
      JoinOfSplit(s[1..], c);
      var rest := Split(s[1..], c);
      assert s == [s[0]] + s[1..];
      if s[0] == c {
        assert ([""] + rest)[1..] == rest;
        assert "" + [c] + Join(rest, c) == s;
      } else {
        var whole := [[s[0]] + rest[0]] + rest[1..];
        assert whole[1..] == rest[1..];
        if |rest| > 1 { assert ([s[0]] + rest[0]) + [c] + Join(rest[1..], c) == [s[0]] + (rest[0] + [c] + Join(rest[1..], c)); }
      }
    }
  }

  /** A version text is accepted exactly when it is the display form of the version it denotes. */
  lemma VersionTextIsCanonical(s: string, v: Version)
    ensures ParseVersion(s) == Some(v) <==>
            v.Valid() && s == Decimal(v.major) + "." + Decimal(v.minor) + "." + Decimal(v.patch)
  {
    if ParseVersion(s) == Some(v) {
      var parts := Split(s, '.');
      CanonicalNumeral(parts[0]);
      CanonicalNumeral(parts[1]);
      CanonicalNumeral(parts[2]);
      JoinOfSplit(s, '.');
      JoinOfThree(parts);
    }
    if v.Valid() && s == FormatVersion(v) {
      FormattedVersionParses(v);
    }
  }

  lemma JoinOfThree(parts: seq<string>)
    requires |parts| == 3
    ensures Join(parts, '.') == parts[0] + "." + parts[1] + "." + parts[2]
  {
    assert parts[1..][1..] == [parts[2]] && parts[1..][0] == parts[1];
    assert Join(parts[1..], '.') == parts[1] + "." + parts[2];
    assert Join(parts, '.') == parts[0] + ['.'] + (parts[1] + "." + parts[2]);
  }

  lemma FormattedVersionParses(v: Version)
    requires v.Valid()
    ensures ParseVersion(FormatVersion(v)) == Some(v)
  {
    var a, b, c := Decimal(v.major), Decimal(v.minor), Decimal(v.patch);
    assert !IsDigit('.');
    SplitWithoutSeparator(a, '.');
    SplitWithoutSeparator(b, '.');
    SplitWithoutSeparator(c, '.');
    SplitJoined(a + ['.'] + b, '.', c);
    SplitJoined(a, '.', b);
    assert a + ['.'] + b + ['.'] + c == FormatVersion(v);
    assert Split(FormatVersion(v), '.') == [a, b, c];
    ParseOfComponent(v.major);
    ParseOfComponent(v.minor);
    ParseOfComponent(v.patch);
  }

  // ---- decisions --------------------------------------------------------------------------

  datatype Release = Release(version: Version, generation: nat, digest: seq<byte>)

  datatype Decision = FreshInstall | KeepCompatible | Upgrade

  /** `decide_service_upgrade` on valid records: the version alone orders releases. */
  function Decide(candidate: Release, installed: Option<Release>): Result<Decision> {
    if candidate.version.major != PROTOCOL_MAJOR then Err(ProtocolVersion)
    else if installed.None? then Ok(FreshInstall)
    else if installed.value.version.major != candidate.version.major then Err(ProtocolVersion)
    else if candidate.version.Less(installed.value.version) then Err(FileSetRollback)
    else if candidate.version == installed.value.version then
      if candidate.digest == installed.value.digest then Ok(KeepCompatible) else Err(GenerationConflict)
    else Ok(Upgrade)
  }

  /** What is decided about a candidate over an installed release of the supported major version: an upgrade
      exactly to a greater version, a refusal exactly of a smaller one, and for the same one the digest decides. */
  lemma DecidesByWeight(candidate: Release, installed: Release)
    requires candidate.version.Valid() && installed.version.Valid()
    requires candidate.version.major == installed.version.major == PROTOCOL_MAJOR
    ensures var decision := Decide(candidate, Some(installed));
      && (decision == Ok(Upgrade) <==> Weight(candidate.version) > Weight(installed.version))
      && (decision == Err(FileSetRollback) <==> Weight(candidate.version) < Weight(installed.version))
      && (decision == Ok(KeepCompatible) <==>
            Weight(candidate.version) == Weight(installed.version) && candidate.digest == installed.digest)
      && (decision == Err(GenerationConflict) <==>
            Weight(candidate.version) == Weight(installed.version) && candidate.digest != installed.digest)
  {
    OrderIsByWeight(candidate.version, installed.version);
    OrderIsByWeight(installed.version, candidate.version);
  }

  /** The other decisions: nothing is installed, or a major version is not the supported one. */
  lemma DecidesByMajor(candidate: Release, installed: Option<Release>)
    ensures Decide(candidate, installed) == Ok(FreshInstall) <==>
            installed.None? && candidate.version.major == PROTOCOL_MAJOR
    ensures Decide(candidate, installed) == Err(ProtocolVersion) <==>
            candidate.version.major != PROTOCOL_MAJOR
            || (installed.Some? && installed.value.version.major != PROTOCOL_MAJOR)
  {}

  /** Each release was accepted over the one before it. */
  predicate AcceptedInOrder(releases: seq<Release>) {
    forall i :: 0 < i < |releases| ==> Decide(releases[i], Some(releases[i - 1])).Ok?
  }

  /** Over any chain of accepted releases the version never goes back, one version never names two
      digests, and the major version stays that of the protocol. */
  lemma {:induction false} ReleasesNeverGoBack(releases: seq<Release>, i: nat, j: nat)
    requires AcceptedInOrder(releases) && i < j < |releases|
    ensures !releases[j].version.Less(releases[i].version)
    ensures releases[i].version.Valid() && releases[j].version.Valid() ==>
              Weight(releases[i].version) <= Weight(releases[j].version)
    ensures releases[j].version == releases[i].version ==> releases[j].digest == releases[i].digest
    ensures releases[i].version.major == releases[j].version.major == PROTOCOL_MAJOR
    decreases j
  {
    assert Decide(releases[j], Some(releases[j - 1])).Ok?;
    if i < j - 1 { ReleasesNeverGoBack(releases, i, j - 1); }
    if releases[i].version.Valid() && releases[j].version.Valid() {
      OrderIsByWeight(releases[j].version, releases[i].version);
    }
  }

  // ---- the journal ------------------------------------------------------------------------

  datatype UpgradePhase = Staged | OldStopped | ConfigSwitched | Healthy

  datatype UpgradeJournal = UpgradeJournal(candidate: Release, previous: Option<Release>, phase: UpgradePhase)

  /** `ServiceUpgradeJournal::advance`. */
  function Advance(j: UpgradeJournal, next: UpgradePhase): Result<UpgradeJournal> {
    if (j.phase, next) in {(Staged, OldStopped), (OldStopped, ConfigSwitched), (ConfigSwitched, Healthy)}
    then Ok(j.(phase := next))
    else Err(TransactionState)
  }
}
