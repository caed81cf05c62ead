/** The signed file-set manifest: which paths it may name and when it is accepted. */
module FileSets {
  import opened Outcomes
  import opened Text
  import opened JobIds

  const MAX_PATH_BYTES: nat := 1024
  const MAX_FILE_ENTRIES: nat := 100_000
  const MAX_DECLARED_PAYLOAD_BYTES: nat := 2 * 1024 * 1024 * 1024 * 1024
  const RESERVED_DIRECTORY := ".7launcher-maintenance"

  datatype FileEntry = FileEntry(path: string, sha256: string, size: nat)

  datatype FileSet = FileSet(files: seq<FileEntry>, removeFiles: seq<string>, generation: nat, productId: string)

  function Upper(s: string): string {
    seq(|s|, i requires 0 <= i < |s| => if IsLowerLetter(s[i]) then s[i] - 'a' + 'A' else s[i])
  }

  predicate ReservedWindowsName(component: string) {
    var stem := Upper(Split(component, '.')[0]);
    || stem in ["CON", "PRN", "AUX", "NUL"]
    || (|stem| == 4 && (stem[..3] == "COM" || stem[..3] == "LPT") && '1' <= stem[3] <= '9')
  }

  predicate ValidComponent(component: string, first: bool) {
    && component != ""
    && component != "."
    && component != ".."
    && component[|component| - 1] != ' '
    && component[|component| - 1] != '.'
    && !ReservedWindowsName(component)
    && !(first && Lower(component) == RESERVED_DIRECTORY)
  }

  /** `validate_relative_path`. */
  predicate ValidRelativePath(path: string) {
    && path != ""
    && |path| <= MAX_PATH_BYTES
    && path[0] != '/'
    && path[|path| - 1] != '/'
    && '\\' !in path
    && (forall i :: 0 <= i < |path| ==> path[i] >= ' ' && path[i] !in "<>:\"|?*")
    && var components := Split(path, '/');
       forall i :: 0 <= i < |components| ==> ValidComponent(components[i], i == 0)
  }

  /** Where a path leads from a directory whose components are `below`: None if it leaves the root. */
  function Resolve(below: seq<string>, components: seq<string>): Option<seq<string>>
    decreases |components|
  {
    if components == [] then Some(below)
    else if components[0] == "" || components[0] == "." then Resolve(below, components[1..])
    else if components[0] == ".." then
      if below == [] then None else Resolve(below[..|below| - 1], components[1..])
    else Resolve(below + [components[0]], components[1..])
  }

  /** The name that Windows uses: trailing spaces and dots are dropped. */
  function WindowsName(component: string): string
    decreases |component|
  {
    if component != "" && component[|component| - 1] in " ." then WindowsName(component[..|component| - 1]) else component
  }

  const DEVICES: seq<string> := [
    "CON", "PRN", "AUX", "NUL",
    "COM1", "COM2", "COM3", "COM4", "COM5", "COM6", "COM7", "COM8", "COM9",
    "LPT1", "LPT2", "LPT3", "LPT4", "LPT5", "LPT6", "LPT7", "LPT8", "LPT9"]

  lemma ReservedNamesAreDevices(component: string)
    ensures ReservedWindowsName(component) <==> Upper(Split(component, '.')[0]) in DEVICES
  {
    var stem := Upper(Split(component, '.')[0]);
    if |stem| == 4 && (stem[..3] == "COM" || stem[..3] == "LPT") && '1' <= stem[3] <= '9' {
      assert stem == stem[..3] + [stem[3]];
      assert stem[3] in "123456789";
      var port := (stem[3] - '1') as int;
      assert stem == DEVICES[if stem[..3] == "COM" then 4 + port else 13 + port];
    }
  }

  lemma {:induction false} ResolvesToItself(below: seq<string>, components: seq<string>)
    requires forall i :: 0 <= i < |components| ==> components[i] !in ["", ".", ".."]
    ensures Resolve(below, components) == Some(below + components)
    decreases |components|
  {
    if components == [] {
      assert below + components == below;
    } else {
      ResolvesToItself(below + [components[0]], components[1..]);
      assert below + [components[0]] + components[1..] == below + components;
    }
  }

  /** An accepted path stays below the root and outside the reserved directory: it names no drive, stream or
      device, Windows changes none of its components, and it leads where it says. */
  lemma AcceptedPathStaysBelow(path: string)
    requires ValidRelativePath(path)
    ensures var components := Split(path, '/');
      && Resolve([], components) == Some(components)
      && Lower(components[0]) != ".7launcher-maintenance"
      && forall i :: 0 <= i < |components| ==>
           && WindowsName(components[i]) == components[i] != ""
           && Upper(Split(components[i], '.')[0]) !in DEVICES
    ensures forall c :: c in "<>:\"|?*\\" ==> c !in path
  {
    var components := Split(path, '/');
    forall i | 0 <= i < |components| ensures ValidComponent(components[i], i == 0) && !ReservedWindowsName(components[i]) {}
    ResolvesToItself([], components);
    assert [] + components == components;
    forall i | 0 <= i < |components| ensures Upper(Split(components[i], '.')[0]) !in DEVICES {
      ReservedNamesAreDevices(components[i]);
    }
  }

  /** Every path of the manifest: replacements first, then removals. */
  function AllPaths(fs: FileSet): seq<string> {
    seq(|fs.files|, i requires 0 <= i < |fs.files| => fs.files[i].path) + fs.removeFiles
  }

  /** No two of the first `n` paths name the same file, whatever their letter case. */
  ghost predicate DistinctIgnoringCase(paths: seq<string>, n: nat)
    requires n <= |paths|
  {
    forall i, j :: 0 <= i < j < n ==> Lower(paths[i]) != Lower(paths[j])
  }

  ghost predicate AllValid(paths: seq<string>, n: nat)
    requires n <= |paths|
  {
    forall i :: 0 <= i < n ==> ValidRelativePath(paths[i])
  }

  predicate ValidHash(sha256: string) { |sha256| == 64 && IsHex(sha256) }

  ghost predicate HashesWellFormed(files: seq<FileEntry>, n: nat)
    requires n <= |files|
  {
    forall i :: 0 <= i < n ==> ValidHash(files[i].sha256)
  }

  function DeclaredSize(files: seq<FileEntry>): nat {
    if files == [] then 0 else DeclaredSize(files[..|files| - 1]) + files[|files| - 1].size
  }

  ghost predicate ValidFileSet(fs: FileSet, productId: string) {
    && fs.generation != 0
    && ValidIdentifier(fs.productId)
    && fs.productId == productId
    && 0 < |AllPaths(fs)| <= MAX_FILE_ENTRIES
    && AllValid(AllPaths(fs), |AllPaths(fs)|)
    && DistinctIgnoringCase(AllPaths(fs), |AllPaths(fs)|)
    && HashesWellFormed(fs.files, |fs.files|)
    && DeclaredSize(fs.files) <= MAX_DECLARED_PAYLOAD_BYTES
  }

  lemma {:induction false} DeclaredSizeGrows(files: seq<FileEntry>, n: nat)
    requires n <= |files|
    ensures DeclaredSize(files[..n]) <= DeclaredSize(files)
  {
    if n < |files| {
      DeclaredSizeGrows(files[..|files| - 1], n);
      assert files[..|files| - 1][..n] == files[..n];
    } else {
      assert files[..n] == files;
    }
  }

  ghost function FoldedNames(paths: seq<string>, n: nat): set<string>
    requires n <= |paths|
  {
    if n == 0 then {} else FoldedNames(paths, n - 1) + {Lower(paths[n - 1])}
  }

  /** What the two loops have checked after `n` paths. */
  ghost predicate Checked(paths: seq<string>, n: nat)
    requires n <= |paths|
  {
    n == 0 || (Checked(paths, n - 1) && ValidRelativePath(paths[n - 1])
               && Lower(paths[n - 1]) !in FoldedNames(paths, n - 1))
  }

  lemma {:induction false} FoldedNamesAre(paths: seq<string>, n: nat)
    requires n <= |paths|
    ensures forall s :: s in FoldedNames(paths, n) <==> exists i :: 0 <= i < n && Lower(paths[i]) == s
  {
    if n > 0 { FoldedNamesAre(paths, n - 1); }
  }

  /** Checking the paths one by one against a growing set is the pairwise property. */
  lemma {:induction false} CheckedMeansValidAndDistinct(paths: seq<string>, n: nat)
    requires n <= |paths|
    ensures Checked(paths, n) <==> AllValid(paths, n) && DistinctIgnoringCase(paths, n)
  {
    if n > 0 {
      CheckedMeansValidAndDistinct(paths, n - 1);
      FoldedNamesAre(paths, n - 1);
    }
  }

  lemma {:induction false} CheckedPrefix(paths: seq<string>, n: nat, m: nat)
    requires n <= m <= |paths| && Checked(paths, m)
    ensures Checked(paths, n)
  {
    if n < m { CheckedPrefix(paths, n, m - 1); }
  }

  /** The replacement list passes: paths, hashes and the running total of sizes. */
  ghost predicate FilesAccepted(files: seq<FileEntry>, paths: seq<string>, n: nat)
    requires n <= |files| && n <= |paths|
  {
    && Checked(paths, n)
    && HashesWellFormed(files, n)
    && DeclaredSize(files[..n]) <= MAX_DECLARED_PAYLOAD_BYTES
  }

  lemma AcceptedPrefix(files: seq<FileEntry>, paths: seq<string>, n: nat)
    requires n <= |files| <= |paths| && FilesAccepted(files, paths, |files|)
    ensures FilesAccepted(files, paths, n)
  {
    CheckedPrefix(paths, n, |files|);
    assert files[..|files|] == files;
    DeclaredSizeGrows(files, n);
  }

  /** A name that is valid and not yet taken is one more checked path. */
  lemma CheckNext(paths: seq<string>, n: nat, names: set<string>)
    requires n < |paths| && Checked(paths, n) && names == FoldedNames(paths, n)
    ensures Checked(paths, n + 1) <==> ValidRelativePath(paths[n]) && Lower(paths[n]) !in names
    ensures FoldedNames(paths, n + 1) == names + {Lower(paths[n])}
  {}

  lemma AcceptNext(files: seq<FileEntry>, paths: seq<string>, n: nat)
    requires n < |files| <= |paths| && FilesAccepted(files, paths, n)
    ensures DeclaredSize(files[..n + 1]) == DeclaredSize(files[..n]) + files[n].size
    ensures FilesAccepted(files, paths, n + 1) <==>
      && Checked(paths, n + 1)
      && ValidHash(files[n].sha256)
      && DeclaredSize(files[..n]) + files[n].size <= MAX_DECLARED_PAYLOAD_BYTES
  {
    assert files[..n + 1][..n] == files[..n];
    if Checked(paths, n + 1) && ValidHash(files[n].sha256) {
      assert HashesWellFormed(files, n + 1);
    }
  }

  lemma NotAcceptedStays(files: seq<FileEntry>, paths: seq<string>, n: nat)
    requires n <= |files| <= |paths| && !FilesAccepted(files, paths, n)
    ensures !FilesAccepted(files, paths, |files|)
  {
    if FilesAccepted(files, paths, |files|) { AcceptedPrefix(files, paths, n); }
  }

  /** One file of the replacement list, with the error of the first check that it fails. */
  method ValidateFile(files: seq<FileEntry>, i: nat, names: set<string>, declared: nat, ghost paths: seq<string>)
    returns (r: Outcome, newNames: set<string>, newDeclared: nat)
    requires i < |files| <= |paths| && paths[i] == files[i].path
    requires FilesAccepted(files, paths, i) && names == FoldedNames(paths, i) && declared == DeclaredSize(files[..i])
    ensures r.Done? <==> FilesAccepted(files, paths, i + 1)
    ensures r.Done? ==> newNames == FoldedNames(paths, i + 1) && newDeclared == DeclaredSize(files[..i + 1])
    ensures !r.Done? ==> r == Failed(
      if !ValidRelativePath(files[i].path) || Lower(files[i].path) in names then FileSetPath
      else if !ValidHash(files[i].sha256) then FileSetHash
      else FileSetLimit)
  {
    CheckNext(paths, i, names);
    AcceptNext(files, paths, i);
    newNames, newDeclared := names, declared;
    if !ValidRelativePath(files[i].path) || Lower(files[i].path) in names { return Failed(FileSetPath), newNames, newDeclared; }
    newNames := names + {Lower(files[i].path)};
    var hash := DecodeLowerHex(files[i].sha256, DIGEST_BYTES);
    if hash.None? { return Failed(FileSetHash), newNames, newDeclared; }
    newDeclared := declared + files[i].size;
    r := if newDeclared > MAX_DECLARED_PAYLOAD_BYTES then Failed(FileSetLimit) else Done;
  }

  method ValidateFiles(files: seq<FileEntry>, ghost paths: seq<string>) returns (r: Outcome, names: set<string>)
    requires |files| <= |paths| && forall i :: 0 <= i < |files| ==> paths[i] == files[i].path
    ensures r.Done? <==> FilesAccepted(files, paths, |files|)
    ensures r.Done? ==> names == FoldedNames(paths, |files|)
    ensures !r.Done? ==> r.Failed? && r.code in {FileSetPath, FileSetHash, FileSetLimit}
  {
    names, r := {}, Done;
    var declared: nat := 0;
    for i := 0 to |files|
      invariant r.Done? && FilesAccepted(files, paths, i)
      invariant names == FoldedNames(paths, i) && declared == DeclaredSize(files[..i])
    {
      r, names, declared := ValidateFile(files, i, names, declared, paths);
      if !r.Done? {
        NotAcceptedStays(files, paths, i + 1);
        return;
      }
    }
  }

  /** The removal list, checked against the names of the replacement list and its own. */
  method ValidateRemovals(removals: seq<string>, replacements: set<string>, ghost paths: seq<string>, ghost start: nat)
    returns (ok: bool)
    requires start + |removals| == |paths| && forall i :: 0 <= i < |removals| ==> paths[start + i] == removals[i]
    requires Checked(paths, start) && replacements == FoldedNames(paths, start)
    ensures ok <==> Checked(paths, |paths|)
  {
    var names := replacements;
    for i := 0 to |removals|
      invariant Checked(paths, start + i) && names == FoldedNames(paths, start + i)
    {
      var path := removals[i];
      CheckNext(paths, start + i, names);
      if !ValidRelativePath(path) || Lower(path) in names {
        if Checked(paths, |paths|) { CheckedPrefix(paths, start + i + 1, |paths|); }
        return false;
      }
      names := names + {Lower(path)};
    }
    ok := true;
  }

  /** The error of the first check that a refused manifest can have failed. */
  predicate RefusalCode(fs: FileSet, productId: string, code: ErrorCode) {
    if fs.generation == 0 || !ValidIdentifier(fs.productId) then code == JsonInvalid
    else if fs.productId != productId then code == ProductMismatch
    else if !(0 < |AllPaths(fs)| <= MAX_FILE_ENTRIES) then code == FileSetLimit
    else code in {FileSetPath, FileSetHash, FileSetLimit}
  }

  /** `validate_file_set`: accepts exactly the manifests whose paths are valid and distinct ignoring
      case across both lists, whose hashes are well formed and whose declared size fits. The header
      checks come first, each with its own error. */
  method ValidateFileSet(fs: FileSet, productId: string) returns (r: Outcome)
    ensures r.Done? <==> ValidFileSet(fs, productId)
    ensures !r.Done? ==> r.Failed? && RefusalCode(fs, productId, r.code)
  {
    ghost var paths := AllPaths(fs);
    if fs.generation == 0 || !ValidIdentifier(fs.productId) { return Failed(JsonInvalid); }
    if fs.productId != productId { return Failed(ProductMismatch); }
    var count := |fs.files| + |fs.removeFiles|;
    if count == 0 || count > MAX_FILE_ENTRIES { return Failed(FileSetLimit); }
    CheckedMeansValidAndDistinct(paths, |paths|);
    assert fs.files[..|fs.files|] == fs.files;
    var names;
    r, names := ValidateFiles(fs.files, paths);
    if !r.Done? {
      if Checked(paths, |paths|) { CheckedPrefix(paths, |fs.files|, |paths|); }
      return;
    }
    var distinct := ValidateRemovals(fs.removeFiles, names, paths, |fs.files|);
    r := if distinct then Done else Failed(FileSetPath);
  }
}
