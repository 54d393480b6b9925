/** The checksum file of a release package, and the comparison of two packages whose checks overlap
    (scripts/compare_release_reproducibility_d1l.py). */
module ReleaseComparison {
  import opened Common
  import opened Json
  import opened Sorting
  import opened JsonPointer
  import opened JsonDiff
  import opened ManifestWhitelist
  import opened ManifestComparison
  import ArchiveExtraction

  type Inventory = map<string, string>

  datatype ComparisonError =
    | InvalidChecksumManifest | ChecksumInventoryMismatch | ChecksumDigestMismatch
    | MissingRequiredPayload | InvalidJson | InvalidManifest | InvalidPackage

  datatype Result<T> = Ok(value: T) | Err(error: ComparisonError)

  const SUMS := "SHA256SUMS.txt"
  const MANIFEST := "manifest.json"
  const README := "README_RELEASE.md"

  // ----- one row

  predicate SafeRelativePath(value: string) {
    value != "" && '\\' !in value && value[0] != '/' && ".." !in ArchiveExtraction.Parts(value)
  }

  predicate HexDigest(s: string) {
    |s| == 64 && forall c | c in s :: '0' <= c <= '9' || 'a' <= c <= 'f'
  }

  datatype Row = Row(digest: string, path: string)

  predicate RowAdmissible(row: Row) {
    HexDigest(row.digest) && '\n' !in row.path && SafeRelativePath(row.path)
  }

  function WriteRow(row: Row): string {
    row.digest + "  ./" + row.path
  }

  /** A full match of 64 hexadecimal digits, two spaces, "./" and the rest of the line. */
  function ReadRow(line: string): Option<Row> {
    if |line| > 68 && line[64..68] == "  ./" && RowAdmissible(Row(line[..64], line[68..]))
    then Some(Row(line[..64], line[68..]))
    else None
  }

  lemma ReadRowIff(line: string, row: Row)
    ensures ReadRow(line) == Some(row) <==> RowAdmissible(row) && line == WriteRow(row)
  {
    if |line| > 68 && line[64..68] == "  ./" {
      assert line == line[..64] + line[64..68] + line[68..];
    }
    var written := WriteRow(row);
    if RowAdmissible(row) && line == written {
      assert line[..64] == row.digest && line[64..68] == "  ./" && line[68..] == row.path;
    }
  }

  // ----- the whole file

  function WriteRows(rows: seq<Row>): seq<string> {
    seq(|rows|, i requires 0 <= i < |rows| => WriteRow(rows[i]))
  }

  /** The rows of an inventory, in path order. */
  function RowsOf(files: Inventory): (rows: seq<Row>)
    ensures |rows| == |SortedKeys(files.Keys)|
    ensures forall i | 0 <= i < |rows| :: SortedKeys(files.Keys)[i] in files &&
              rows[i] == Row(files[SortedKeys(files.Keys)[i]], SortedKeys(files.Keys)[i])
  {
    var keys := SortedKeys(files.Keys);
    assert forall i | 0 <= i < |keys| :: keys[i] in keys;
    seq(|keys|, i requires 0 <= i < |keys| => Row(files[keys[i]], keys[i]))
  }

  function Paths(rows: seq<Row>): seq<string> {
    seq(|rows|, i requires 0 <= i < |rows| => rows[i].path)
  }

  ghost predicate AllAdmissible(rows: seq<Row>) {
    forall i | 0 <= i < |rows| :: RowAdmissible(rows[i])
  }

  /** What the loop of the parser collects: rows with distinct paths, and the map they form. */
  ghost predicate Collected(lines: seq<string>, rows: seq<Row>, parsed: Inventory) {
    && lines == WriteRows(rows)
    && Distinct(Paths(rows))
    && AllAdmissible(rows)
    && (forall i | 0 <= i < |rows| :: rows[i].path in parsed && parsed[rows[i].path] == rows[i].digest)
    && (forall path | path in parsed :: path in Paths(rows))
  }

  lemma CollectOne(lines: seq<string>, rows: seq<Row>, parsed: Inventory, line: string, row: Row)
    requires Collected(lines, rows, parsed)
    requires ReadRow(line) == Some(row) && row.path !in parsed
    ensures Collected(lines + [line], rows + [row], parsed[row.path := row.digest])
  {
    ReadRowIff(line, row);
    var all := rows + [row];
    assert Paths(all) == Paths(rows) + [row.path];
    assert WriteRows(all) == WriteRows(rows) + [line];
    forall i | 0 <= i < |rows| ensures rows[i].path != row.path {
      assert rows[i].path in parsed;
    }
    forall path | path in parsed[row.path := row.digest] ensures path in Paths(all) {
      if path in parsed { assert path in Paths(rows); } else { assert Paths(all)[|rows|] == path; }
    }
  }

  /** The file is readable exactly when it consists of admissible rows with distinct paths. */
  method ReadRows(lines: seq<string>) returns (r: Option<(seq<Row>, Inventory)>)
    ensures r.Some? ==> Collected(lines, r.value.0, r.value.1)
    ensures r.None? ==>
              forall rows: seq<Row> :: lines == WriteRows(rows) && Distinct(Paths(rows)) ==> !AllAdmissible(rows)
  {
    var rows: seq<Row>, parsed: Inventory := [], map[];
    for k := 0 to |lines|
      invariant Collected(lines[..k], rows, parsed) && |rows| == k
    {
      var read := ReadRow(lines[k]);
      if read.None? || read.value.path in parsed {
        forall all: seq<Row> | lines == WriteRows(all) && Distinct(Paths(all))
          ensures !AllAdmissible(all)
        {
          Unreadable(lines, all, rows, parsed, k);
        }
        return None;
      }
      CollectOne(lines[..k], rows, parsed, lines[k], read.value);
      assert lines[..k + 1] == lines[..k] + [lines[k]];
      rows := rows + [read.value];
      parsed := parsed[read.value.path := read.value.digest];
    }
    assert lines[..|lines|] == lines;
    r := Some((rows, parsed));
  }

  lemma Unreadable(lines: seq<string>, all: seq<Row>, rows: seq<Row>, parsed: Inventory, k: nat)
    requires k < |lines| && Collected(lines[..k], rows, parsed) && |rows| == k
    requires lines == WriteRows(all) && Distinct(Paths(all))
    requires ReadRow(lines[k]).None? || ReadRow(lines[k]).value.path in parsed
    ensures !AllAdmissible(all)
  {
    if AllAdmissible(all) {
      ReadRowIff(lines[k], all[k]);
      var path := all[k].path;
      assert path in Paths(rows) && Paths(all)[k] == path;
      assert forall i | 0 <= i < k :: Paths(all)[i] != path;
      var i :| 0 <= i < |rows| && Paths(rows)[i] == path;
      assert lines[..k][i] == lines[i] && Paths(all)[i] != path;
      ReadRowIff(lines[i], rows[i]);
      ReadRowIff(lines[i], all[i]);
      assert false;
    }
  }

  /** Text without repetition, sorted, is the sorted list of its keys. */
  lemma SortedPathsAreKeys(paths: seq<string>, keys: set<string>)
    requires Distinct(paths) && forall x :: x in paths <==> x in keys
    requires paths == SortBy(paths, TextLess)
    ensures paths == SortedKeys(keys)
  {
    TextLessComparesByKey();
    forall i, j | 0 <= i < j < |paths| ensures TextLess(paths[i], paths[j]) || TextLess(paths[j], paths[i]) {
      TextLessTrichotomy(paths[i], paths[j]);
    }
    SortByStrict(paths, TextLess);
    SortedKeysSorted(keys);
    StrictlySortedUnique(paths, SortedKeys(keys), TextLess);
  }

  lemma CollectedPaths(lines: seq<string>, rows: seq<Row>, parsed: Inventory, x: string)
    requires Collected(lines, rows, parsed)
    ensures x in Paths(rows) <==> x in parsed.Keys
  {
    if x in Paths(rows) {
      var i :| 0 <= i < |Paths(rows)| && Paths(rows)[i] == x;
      assert rows[i].path in parsed;
    }
  }

  /** Sorted rows with distinct paths are the rows of the map they form. */
  lemma SortedRowsAreRowsOf(lines: seq<string>, rows: seq<Row>, parsed: Inventory)
    requires Collected(lines, rows, parsed)
    requires Paths(rows) == SortBy(Paths(rows), TextLess)
    ensures rows == RowsOf(parsed)
  {
    var paths := Paths(rows);
    forall x ensures x in paths <==> x in parsed.Keys { CollectedPaths(lines, rows, parsed, x); }
    SortedPathsAreKeys(paths, parsed.Keys);
    forall i | 0 <= i < |rows| ensures rows[i] == RowsOf(parsed)[i] {
      assert paths[i] == rows[i].path;
    }
  }

  // ----- `checksum_manifest`

  /** The one text that is accepted for an inventory: every other file's row, in path order. */
  ghost predicate ChecksumsAccepted(lines: Option<seq<string>>, inventory: Inventory) {
    var rows := RowsOf(inventory - {SUMS});
    rows != [] && AllAdmissible(rows) && lines == Some(WriteRows(rows))
  }

  lemma RowsOfReadable(files: Inventory)
    ensures Distinct(Paths(RowsOf(files)))
    ensures Paths(RowsOf(files)) == SortBy(Paths(RowsOf(files)), TextLess)
  {
    var paths := Paths(RowsOf(files));
    assert paths == SortedKeys(files.Keys);
    SortedKeysSorted(files.Keys);
    TextLessComparesByKey();
    assert NoTies(paths, TextLess);
    SortByStrict(paths, TextLess);
    MembersFromMultiset(paths, SortBy(paths, TextLess));
    StrictlySortedUnique(paths, SortBy(paths, TextLess), TextLess);
  }

  /** Reading recovers the rows that were written. */
  lemma ReadBack(lines: seq<string>, rows: seq<Row>, written: seq<Row>)
    requires lines == WriteRows(rows) && AllAdmissible(rows)
    requires lines == WriteRows(written) && AllAdmissible(written)
    ensures rows == written
  {
    forall i | 0 <= i < |rows| ensures rows[i] == written[i] {
      ReadRowIff(lines[i], rows[i]);
      ReadRowIff(lines[i], written[i]);
    }
  }

  /** The rows of a map determine it. */
  lemma RowsOfDetermine(lines: seq<string>, files: Inventory, parsed: Inventory)
    requires Collected(lines, RowsOf(files), parsed)
    ensures parsed == files
  {
    var rows, keys := RowsOf(files), SortedKeys(files.Keys);
    forall path ensures path in parsed <==> path in files {
      if path in parsed {
        var i :| 0 <= i < |rows| && Paths(rows)[i] == path;
        assert keys[i] in files;
      }
      if path in files {
        var i :| 0 <= i < |keys| && keys[i] == path;
        assert rows[i].path in parsed;
      }
    }
    forall path | path in files ensures parsed[path] == files[path] {
      var i :| 0 <= i < |keys| && keys[i] == path;
      assert rows[i].path in parsed;
    }
  }

  /** A readable file is the accepted one exactly when its rows are sorted and form the inventory. */
  lemma AcceptedIffParsed(lines: seq<string>, rows: seq<Row>, parsed: Inventory, inventory: Inventory)
    requires Collected(lines, rows, parsed)
    ensures ChecksumsAccepted(Some(lines), inventory)
            <==> lines != [] && Paths(rows) == SortBy(Paths(rows), TextLess) && parsed == inventory - {SUMS}
  {
    var files := inventory - {SUMS};
    if ChecksumsAccepted(Some(lines), inventory) {
      ReadBack(lines, rows, RowsOf(files));
      RowsOfReadable(files);
      RowsOfDetermine(lines, files, parsed);
    }
    if Paths(rows) == SortBy(Paths(rows), TextLess) {
      SortedRowsAreRowsOf(lines, rows, parsed);
    }
  }

  lemma AcceptedIsReadable(lines: seq<string>, inventory: Inventory)
    requires ChecksumsAccepted(Some(lines), inventory)
    ensures lines != [] && forall i | 0 <= i < |lines| :: lines[i] != ""
    ensures exists rows: seq<Row> :: lines == WriteRows(rows) && Distinct(Paths(rows)) && AllAdmissible(rows)
  {
    RowsOfReadable(inventory - {SUMS});
    var rows := RowsOf(inventory - {SUMS});
    assert lines == WriteRows(rows) && Distinct(Paths(rows)) && AllAdmissible(rows);
    forall i | 0 <= i < |lines| ensures lines[i] != "" { assert |WriteRow(rows[i])| >= 4; }
  }

  method ChecksumManifest(lines: Option<seq<string>>, inventory: Inventory) returns (r: Result<Inventory>)
    ensures r.Ok? <==> ChecksumsAccepted(lines, inventory)
    ensures r.Ok? ==> r.value == inventory - {SUMS}
  {
    if lines.None? {
      return Err(InvalidChecksumManifest);
    }
    if ChecksumsAccepted(lines, inventory) { AcceptedIsReadable(lines.value, inventory); }
    if lines.value == [] || exists i | 0 <= i < |lines.value| :: lines.value[i] == "" {
      return Err(InvalidChecksumManifest);
    }
    var read := ReadRows(lines.value);
    if read.None? {
      return Err(InvalidChecksumManifest);
    }
    var (rows, parsed) := read.value;
    AcceptedIffParsed(lines.value, rows, parsed, inventory);
    if Paths(rows) != SortBy(Paths(rows), TextLess) {
      return Err(InvalidChecksumManifest);
    }
    r := CheckInventory(parsed, inventory);
  }

  method CheckInventory(parsed: Inventory, inventory: Inventory) returns (r: Result<Inventory>)
    ensures r.Ok? <==> parsed == inventory - {SUMS}
    ensures r.Ok? ==> r.value == parsed
  {
    if parsed.Keys != inventory.Keys - {SUMS} {
      return Err(ChecksumInventoryMismatch);
    }
    var mismatched := set path | path in parsed && inventory[path] != parsed[path];
    if mismatched != {} {
      var path :| path in mismatched;
      assert (inventory - {SUMS})[path] != parsed[path];
      return Err(ChecksumDigestMismatch);
    }
    forall path | path in parsed ensures parsed[path] == inventory[path] { assert path !in mismatched; }
    r := Ok(parsed);
  }

  // ----- an accepted package

  /** What the comparison reads of a package: the inventory by path, the parsed checksum file, and
      the identities other validators extract. */
  datatype Snapshot = Snapshot(
    manifest: Dict, normalized: Dict, inventory: Inventory, checksums: Inventory,
    runId: Value, materials: Value, toolchain: string)

  function StableInventory(s: Snapshot): Inventory {
    s.inventory - {MANIFEST, README, SUMS}
  }

  function ComparableChecksums(s: Snapshot): Inventory {
    s.checksums - {MANIFEST, README}
  }

  predicate AcceptedSnapshot(s: Snapshot) {
    && {MANIFEST, README, SUMS} <= s.inventory.Keys
    && s.checksums == s.inventory - {SUMS}
    && Obj(s.normalized) == Normalized(Obj(s.manifest))
  }

  /** `required` lists the three byte-variable files among others; `shapeOk` and `bindingsOk` are the
      verdicts of the manifest, SBOM and provenance validators. */
  method LoadSnapshot(
    inventory: Inventory, lines: Option<seq<string>>, required: set<string>, manifest: Option<Dict>,
    shapeOk: bool, bindingsOk: bool, runId: Value, materials: Value, toolchain: string)
    returns (r: Result<Snapshot>)
    requires {MANIFEST, README, SUMS} <= required
    ensures r.Ok? <==>
            && ChecksumsAccepted(lines, inventory)
            && required <= inventory.Keys
            && manifest.Some? && shapeOk && bindingsOk
            && Get(manifest.value, "workflow").Obj?
    ensures r.Ok? ==> AcceptedSnapshot(r.value)
    ensures r.Ok? ==> r.value.inventory == inventory && r.value.manifest == manifest.value
    ensures r.Ok? ==> r.value.runId == runId && r.value.materials == materials && r.value.toolchain == toolchain
  {
    var checksums := ChecksumManifest(lines, inventory);
    if checksums.Err? {
      return Err(checksums.error);
    }
    if required - inventory.Keys != {} {
      return Err(MissingRequiredPayload);
    }
    assert required <= inventory.Keys by {
      forall path | path in required ensures path in inventory.Keys { assert path !in required - inventory.Keys; }
    }
    if manifest.None? {
      return Err(InvalidJson);
    }
    if !shapeOk {
      return Err(InvalidManifest);
    }
    var normalized := NormalizeManifest(manifest.value);
    if normalized.None? {
      return Err(InvalidPackage);
    }
    if !bindingsOk {
      return Err(InvalidPackage);
    }
    r := Ok(Snapshot(manifest.value, normalized.value, inventory, checksums.value, runId, materials, toolchain));
  }

  // ----- checks that overlap

  predicate PayloadMatch(a: Snapshot, b: Snapshot) {
    StableInventory(a) == StableInventory(b)
  }

  predicate ChecksumMapMatch(a: Snapshot, b: Snapshot) {
    ComparableChecksums(a) == ComparableChecksums(b)
  }

  predicate InventoryMatch(a: Snapshot, b: Snapshot) {
    a.inventory.Keys == b.inventory.Keys
  }

  lemma StableIsComparable(s: Snapshot)
    requires AcceptedSnapshot(s)
    ensures StableInventory(s) == ComparableChecksums(s)
    ensures s.inventory.Keys == StableInventory(s).Keys + {MANIFEST, README, SUMS}
  {
  }

  /** For accepted packages the two payload checks decide the same, and each implies that the
      packages hold the same files. */
  lemma OverlappingChecks(a: Snapshot, b: Snapshot)
    requires AcceptedSnapshot(a) && AcceptedSnapshot(b)
    ensures PayloadMatch(a, b) <==> ChecksumMapMatch(a, b)
    ensures PayloadMatch(a, b) ==> InventoryMatch(a, b)
  {
    StableIsComparable(a);
    StableIsComparable(b);
  }

  // ----- `compare_with_identity`

  datatype FailureCode =
    | PackageInvalid(error: ComparisonError)
    | SameActionsRun | PackageInventoryMismatch | PayloadMismatch | ChecksumPayloadMapMismatch
    | ManifestSemanticMismatch | ResolvedInputMismatch | ToolchainMismatch | PackageIdentityMismatch

  datatype Checks = Checks(
    distinctActionsRuns: bool, requiredInventoryMatch: bool, payloadMatch: bool, checksumPayloadMapMatch: bool,
    normalizedManifestMatch: bool, resolvedInputsMatch: bool, toolchainMatch: bool, packageIdentityMatch: bool)
  {
    predicate All() {
      && distinctActionsRuns && requiredInventoryMatch && payloadMatch && checksumPayloadMapMatch
      && normalizedManifestMatch && resolvedInputsMatch && toolchainMatch && packageIdentityMatch
    }
  }

  datatype Receipt = Receipt(
    packagesValid: seq<bool>, checks: Checks, observed: seq<string>, failures: seq<FailureCode>, reproducible: bool)

  const NO_CHECKS := Checks(false, false, false, false, false, false, false, false)

  predicate SameIdentity(a: Dict, b: Dict) {
    && ItemEq(Get(a, "project"), Get(b, "project"))
    && ItemEq(Get(a, "package"), Get(b, "package"))
    && ItemEq(Get(a, "app_version"), Get(b, "app_version"))
  }

  /** Apart from the manifests: distinct runs, the same payload, inputs and toolchain. */
  predicate SameBuild(a: Snapshot, b: Snapshot) {
    && !PyEq(a.runId, b.runId)
    && PayloadMatch(a, b)
    && ItemEq(a.materials, b.materials)
    && a.toolchain == b.toolchain
  }

  /** What two packages must agree on. */
  ghost predicate Reproducible(a: Snapshot, b: Snapshot) {
    SameBuild(a, b) && AllDifferencesPermitted(Obj(a.manifest), Obj(b.manifest))
  }

  lemma NoPlaceStartsWith(key: string)
    requires key in {"project", "package", "app_version"}
    ensures forall place | place in PermittedPlaces() :: place[0] != key
  {
  }

  /** Permitted manifest differences never touch the package identity. */
  lemma IdentityFollows(a: Dict, b: Dict)
    requires AllDifferencesPermitted(Obj(a), Obj(b))
    ensures SameIdentity(a, b)
  {
    NoPlaceStartsWith("project");
    NoPlaceStartsWith("package");
    NoPlaceStartsWith("app_version");
    OtherFieldsSame(Obj(a), Obj(b), "project");
    OtherFieldsSame(Obj(a), Obj(b), "package");
    OtherFieldsSame(Obj(a), Obj(b), "app_version");
  }

  function Failed(passed: bool, code: FailureCode): seq<FailureCode> {
    if passed then [] else [code]
  }

  /** The manifest checks: the observed paths, and whether the manifests match. */
  method CompareManifests(a: Snapshot, b: Snapshot) returns (observed: seq<string>, matches: bool)
    requires AcceptedSnapshot(a) && AcceptedSnapshot(b)
    ensures observed == DifferencePaths(Obj(a.manifest), Obj(b.manifest), "")
    ensures matches <==> AllDifferencesPermitted(Obj(a.manifest), Obj(b.manifest))
  {
    observed := DifferencePaths(Obj(a.manifest), Obj(b.manifest), "");
    var permitted := PermittedPaths(PermittedPlaces());
    var unpermitted := set path | path in observed && path !in permitted;
    matches := ItemEq(Obj(a.normalized), Obj(b.normalized)) && unpermitted == {};
    NormalizedComparisonRedundant(Obj(a.manifest), Obj(b.manifest));
    assert unpermitted == {} <==> AllDifferencesPermitted(Obj(a.manifest), Obj(b.manifest)) by {
      if unpermitted == {} {
        forall path | path in observed ensures path in permitted { assert path !in unpermitted; }
      }
    }
  }

  function FileDigest(files: Inventory, path: string): Option<string> {
    if path in files then Some(files[path]) else None
  }

  method ComparePayloads(a: Snapshot, b: Snapshot) returns (matches: bool)
    ensures matches <==> PayloadMatch(a, b)
  {
    var x, y := StableInventory(a), StableInventory(b);
    var mismatches := set path | path in x.Keys + y.Keys && FileDigest(x, path) != FileDigest(y, path);
    matches := mismatches == {};
    if matches {
      forall path ensures path in x <==> path in y {
        if path in x || path in y { assert path !in mismatches; }
      }
      forall path | path in x ensures x[path] == y[path] { assert path !in mismatches; }
      assert x == y;
    }
  }

  method CompareSnapshots(a: Snapshot, b: Snapshot) returns (receipt: Receipt)
    requires AcceptedSnapshot(a) && AcceptedSnapshot(b)
    ensures receipt.reproducible <==> Reproducible(a, b)
    ensures receipt.reproducible <==> receipt.failures == []
    ensures receipt.reproducible <==> receipt.checks.All()
    ensures receipt.observed == DifferencePaths(Obj(a.manifest), Obj(b.manifest), "")
    ensures receipt.packagesValid == [true, true]
  {
    var checks, failures := NO_CHECKS, [];
    checks := checks.(distinctActionsRuns := !PyEq(a.runId, b.runId));
    failures := failures + Failed(checks.distinctActionsRuns, SameActionsRun);
    checks := checks.(requiredInventoryMatch := InventoryMatch(a, b));
    failures := failures + Failed(checks.requiredInventoryMatch, PackageInventoryMismatch);
    var payload := ComparePayloads(a, b);
    checks := checks.(payloadMatch := payload);
    failures := failures + Failed(checks.payloadMatch, PayloadMismatch);
    checks := checks.(checksumPayloadMapMatch := ChecksumMapMatch(a, b));
    failures := failures + Failed(checks.checksumPayloadMapMatch, ChecksumPayloadMapMismatch);
    var observed, manifests := CompareManifests(a, b);
    checks := checks.(normalizedManifestMatch := manifests);
    failures := failures + Failed(checks.normalizedManifestMatch, ManifestSemanticMismatch);
    checks := checks.(resolvedInputsMatch := ItemEq(a.materials, b.materials));
    failures := failures + Failed(checks.resolvedInputsMatch, ResolvedInputMismatch);
    checks := checks.(toolchainMatch := a.toolchain == b.toolchain);
    failures := failures + Failed(checks.toolchainMatch, ToolchainMismatch);
    checks := checks.(packageIdentityMatch := SameIdentity(a.manifest, b.manifest));
    failures := failures + Failed(checks.packageIdentityMatch, PackageIdentityMismatch);
    receipt := Receipt([true, true], checks, observed, failures, failures == [] && checks.All());
    OverlappingChecks(a, b);
    if AllDifferencesPermitted(Obj(a.manifest), Obj(b.manifest)) {
      IdentityFollows(a.manifest, b.manifest);
    }
  }

  /** Two packages: the comparison passes exactly when both are accepted and agree on run, payload,
      manifest, inputs and toolchain; the other three checks follow from these. */
  method CompareWithIdentity(first: Result<Snapshot>, second: Result<Snapshot>) returns (receipt: Receipt)
    requires first.Ok? ==> AcceptedSnapshot(first.value)
    requires second.Ok? ==> AcceptedSnapshot(second.value)
    ensures receipt.reproducible <==> first.Ok? && second.Ok? && Reproducible(first.value, second.value)
    ensures receipt.reproducible <==> receipt.failures == []
    ensures receipt.packagesValid == [first.Ok?, second.Ok?]
  {
    if first.Ok? && second.Ok? {
      receipt := CompareSnapshots(first.value, second.value);
      return;
    }
    var failures := [];
    if first.Err? { failures := failures + [PackageInvalid(first.error)]; }
    if second.Err? { failures := failures + [PackageInvalid(second.error)]; }
    receipt := Receipt([first.Ok?, second.Ok?], NO_CHECKS, [], failures, false);
  }

  lemma SameBuildSymmetric(a: Snapshot, b: Snapshot)
    ensures SameBuild(a, b) ==> SameBuild(b, a)
  {
  }

  /** Swapping the packages does not change the verdict or the observed differences. */
  lemma VerdictSymmetric(a: Snapshot, b: Snapshot)
    ensures Reproducible(a, b) ==> Reproducible(b, a)
    ensures DifferencePaths(Obj(a.manifest), Obj(b.manifest), "")
        == DifferencePaths(Obj(b.manifest), Obj(a.manifest), "")
  {
    PathsSymmetric(Obj(a.manifest), Obj(b.manifest), "");
    SameBuildSymmetric(a, b);
  }

  /** What a third package was found reproducible with is reproducible from distinct runs, as long
      as no permitted place hides a difference. */
  lemma VerdictTransitive(a: Snapshot, b: Snapshot, c: Snapshot)
    requires Reproducible(a, b) && Reproducible(b, c) && !PyEq(a.runId, c.runId)
    requires FlatAtPermitted(Obj(a.manifest), Obj(c.manifest))
    ensures Reproducible(a, c)
  {
    WhitelistIff(Obj(a.manifest), Obj(b.manifest));
    WhitelistIff(Obj(b.manifest), Obj(c.manifest));
    WhitelistIff(Obj(a.manifest), Obj(c.manifest));
  }
}
