/** The work-package scheduler and the ledger checks it relies on (scripts/completion_ledger.py). */
module WorkPackages {
  import opened Common
  import opened Json
  import E = EvidenceTemplates

  datatype Status =
    | Blocked | Open | InProgress | HostGreen | ActionsGreen | HardwareGreen | Merged | Released
    | UnknownStatus(text: string)

  datatype Gate = MergedGate | ProofBankedGate | ImplementationMergedGate | UnknownGate(text: string)

  /** A retained file of a package, as its row describes it. */
  datatype EvidenceRow = EvidenceRow(filename: Value, valid: Value, commit: Value)

  /** The `latest_valid_receipt`. */
  datatype Receipt = Receipt(filename: Value, commit: Value)

  /** What a package says of commits and evidence. An absent `evidence_commit` reads as the
      implementation commit. */
  datatype Records = Records(
    commit: Value, evidenceCommit: Value, evidence: seq<EvidenceRow>, latest: Option<Receipt>, required: seq<string>)

  /** A package row; an absent `dependency_gate` reads as "merged". */
  datatype Package = Package(
    id: string, status: Status, gate: Gate, implementationMerged: bool, proofBanked: bool,
    dependsOn: seq<string>, blockers: seq<string>, records: Records)

  /** A blocker row; `open` is its status, None when it is neither "open" nor "closed". */
  datatype Blocker = Blocker(
    id: string, open: Option<bool>, workPackage: string, blocksExecution: bool, blocksPackage: Option<bool>)

  /** `headExact` stands for the checks on the schema, the repository, the ports and the documents. */
  datatype Ledger = Ledger(
    headExact: bool, packages: seq<Package>, blockers: seq<Blocker>, priority: seq<string>, posture: string)

  // ----- states

  predicate DependencySatisfied(p: Package) {
    match p.gate
    case ProofBankedGate => p.proofBanked && (p.status.HardwareGreen? || p.status.Merged? || p.status.Released?)
    case ImplementationMergedGate =>
      p.implementationMerged
      && (p.status.InProgress? || p.status.HostGreen? || p.status.ActionsGreen? || p.status.HardwareGreen?
          || p.status.Merged? || p.status.Released?)
    case _ => p.implementationMerged && (p.status.Merged? || p.status.Released?)
  }

  predicate PackageComplete(p: Package) {
    if p.gate.ProofBankedGate? then p.proofBanked && (p.status.HardwareGreen? || p.status.Merged? || p.status.Released?)
    else p.status.Merged? || p.status.Released?
  }

  predicate OpenPackageBlocker(b: Blocker) {
    b.open == Some(true) && if b.blocksPackage.Some? then b.blocksPackage.value else b.blocksExecution
  }

  type Packages = map<string, Package>

  /** Rows by id: with repeated ids the last one counts. */
  function ById(rows: seq<Package>): Packages {
    if rows == [] then map[] else ById(rows[..|rows| - 1])[rows[|rows| - 1].id := rows[|rows| - 1]]
  }

  function Filter(ids: seq<string>, keep: string -> bool): seq<string> {
    if ids == [] then [] else Filter(ids[..|ids| - 1], keep) + if keep(ids[|ids| - 1]) then [ids[|ids| - 1]] else []
  }

  // ----- scheduling

  function IsPending(packages: Packages): string -> bool {
    (id: string) => id in packages && !PackageComplete(packages[id])
  }

  function PendingWorkPackages(ledger: Ledger): seq<string> {
    Filter(ledger.priority, IsPending(ById(ledger.packages)))
  }

  function OpenBlockerIds(blockers: seq<Blocker>): set<string> {
    set i | 0 <= i < |blockers| && OpenPackageBlocker(blockers[i]) :: blockers[i].id
  }

  predicate DependenciesMet(packages: Packages, p: Package) {
    forall k | 0 <= k < |p.dependsOn| :: p.dependsOn[k] in packages && DependencySatisfied(packages[p.dependsOn[k]])
  }

  predicate ReferencesOpen(open: set<string>, p: Package) {
    exists k | 0 <= k < |p.blockers| :: p.blockers[k] in open
  }

  function IsRunnable(packages: Packages, open: set<string>): string -> bool {
    (id: string) =>
      && id in packages && !packages[id].status.Blocked? && !PackageComplete(packages[id])
      && !ReferencesOpen(open, packages[id]) && DependenciesMet(packages, packages[id])
  }

  method RunnableWorkPackages(ledger: Ledger) returns (result: seq<string>)
    ensures result == Filter(ledger.priority, IsRunnable(ById(ledger.packages), OpenBlockerIds(ledger.blockers)))
  {
    var packages, open := ById(ledger.packages), OpenBlockerIds(ledger.blockers);
    result := [];
    for k := 0 to |ledger.priority|
      invariant result == Filter(ledger.priority[..k], IsRunnable(packages, open))
    {
      var id := ledger.priority[k];
      assert ledger.priority[..k + 1][..k] == ledger.priority[..k];
      if id !in packages || packages[id].status.Blocked? || PackageComplete(packages[id]) {
        continue;
      }
      if ReferencesOpen(open, packages[id]) {
        continue;
      }
      if DependenciesMet(packages, packages[id]) {
        result := result + [id];
      }
    }
    assert ledger.priority[..|ledger.priority|] == ledger.priority;
  }

  predicate ReadyPosture(posture: string) {
    posture == "ready_to_tag" || posture == "released"
  }

  predicate ReleaseReady(ledger: Ledger) {
    PendingWorkPackages(ledger) == [] && ReadyPosture(ledger.posture)
  }

  // ----- commits and evidence

  /** Forty lower-case hexadecimal digits. */
  predicate IsSha(v: Value) {
    v.Str? && |v.s| == 40 && forall c | c in v.s :: '0' <= c <= '9' || 'a' <= c <= 'f'
  }

  predicate Truthy(v: Value) {
    match v
    case Null => false
    case Bool(b) => b
    case Int(i) => i != 0
    case Float(f) => f != 0.0
    case NaN => true
    case Str(s) => s != ""
    case Arr(items) => items != []
    case Obj(fields) => fields != map[]
  }

  /** The commit is the one valid evidence must be for, if the package names one. */
  predicate ForCommit(commit: Value, evidenceCommit: Value) {
    Truthy(evidenceCommit) ==> PyEq(commit, evidenceCommit)
  }

  predicate RowOk(row: EvidenceRow, evidenceCommit: Value) {
    && row.filename.Str? && row.filename.s != ""
    && row.valid.Bool?
    && IsSha(row.commit)
    && (row.valid == Bool(true) ==> ForCommit(row.commit, evidenceCommit))
  }

  /** A valid row names the receipt's file and commit. */
  predicate ReceiptKnown(receipt: Receipt, evidence: seq<EvidenceRow>) {
    exists k | 0 <= k < |evidence| ::
      && evidence[k].valid == Bool(true)
      && ItemEq(evidence[k].filename, receipt.filename) && ItemEq(evidence[k].commit, receipt.commit)
  }

  predicate RecordsOk(r: Records) {
    && (r.commit == Null || IsSha(r.commit))
    && (r.evidenceCommit == Null || IsSha(r.evidenceCommit))
    && (forall k | 0 <= k < |r.evidence| :: RowOk(r.evidence[k], r.evidenceCommit))
    && (r.latest.Some? ==>
      ReceiptKnown(r.latest.value, r.evidence) && ForCommit(r.latest.value.commit, r.evidenceCommit))
  }

  /** The rows as the template matcher reads them: only a name that is text can match. */
  function EvidenceOf(rows: seq<EvidenceRow>): seq<E.Evidence> {
    seq(|rows|, k requires 0 <= k < |rows| =>
      E.Evidence(if rows[k].filename.Str? then rows[k].filename.s else "",
                 rows[k].valid == Bool(true) && rows[k].filename.Str?))
  }

  /** Every required template is matched by a valid file. */
  ghost predicate EvidenceComplete(r: Records) {
    forall i | 0 <= i < |r.required| :: E.Covered(r.required[i], EvidenceOf(r.evidence))
  }

  // ----- the checks

  datatype LedgerError =
    | IdEmpty(index: nat) | DuplicateId(id: string)
    | DuplicateBlocker(id: string) | BlockerStatusUnknown(id: string) | BlockerPackageUnknown(id: string)
    | StatusUnknown(id: string) | GateUnknown(id: string)
    | SelfDependency(id: string) | DependencyUnknown(id: string, dependency: string)
    | BlockerUnknown(id: string, blocker: string) | BlockerOfAnother(id: string, blocker: string)
    | EvidenceMissing(id: string) | BankedTooEarly(id: string) | BankedWithoutEvidence(id: string)
    | GreenNotBanked(id: string) | MergedNotImplemented(id: string)
    | CommitInvalid(id: string) | EvidenceCommitInvalid(id: string) | EvidenceRowInvalid(id: string, row: nat)
    | ReceiptUnknown(id: string) | ReceiptForAnotherCommit(id: string) | HeadInvalid | PostureTooEarly
    | BlockerNotReferenced(id: string) | DependencyNotSatisfied(id: string, dependency: string)
    | PriorityIncomplete | PriorityRepeats

  ghost predicate DistinctIds(rows: seq<Package>) {
    forall i, j | 0 <= i < j < |rows| :: rows[i].id != rows[j].id
  }

  predicate AtLeastHardwareGreen(s: Status) {
    s.HardwareGreen? || s.Merged? || s.Released?
  }

  /** A package's status against its evidence and flags. */
  ghost predicate StatusConsistent(p: Package) {
    && !p.status.UnknownStatus? && !p.gate.UnknownGate?
    && (AtLeastHardwareGreen(p.status) ==> EvidenceComplete(p.records))
    && (p.proofBanked ==> AtLeastHardwareGreen(p.status) && EvidenceComplete(p.records))
    && (p.status.HardwareGreen? ==> p.proofBanked)
    && (p.status.Merged? || p.status.Released? ==> p.implementationMerged)
  }

  /** A package by itself. */
  ghost predicate PackageConsistent(p: Package) {
    StatusConsistent(p) && RecordsOk(p.records)
  }

  predicate DependenciesKnown(p: Package, packages: Packages) {
    forall k | 0 <= k < |p.dependsOn| :: p.dependsOn[k] != p.id && p.dependsOn[k] in packages
  }

  type Blockers = map<string, Blocker>

  function BlockersById(rows: seq<Blocker>): Blockers {
    if rows == [] then map[] else BlockersById(rows[..|rows| - 1])[rows[|rows| - 1].id := rows[|rows| - 1]]
  }

  predicate BlockersOwned(p: Package, blockers: Blockers) {
    forall k | 0 <= k < |p.blockers| :: p.blockers[k] in blockers && blockers[p.blockers[k]].workPackage == p.id
  }

  predicate BlockerConsistent(b: Blocker, packages: Packages) {
    b.open.Some? && b.workPackage in packages
  }

  predicate BlockerReferenced(b: Blocker, packages: Packages) {
    OpenPackageBlocker(b) && b.workPackage in packages ==> b.id in packages[b.workPackage].blockers
  }

  predicate DependenciesInTime(p: Package, packages: Packages) {
    !p.status.Blocked? ==>
      forall k | 0 <= k < |p.dependsOn| :: p.dependsOn[k] in packages ==> DependencySatisfied(packages[p.dependsOn[k]])
  }

  ghost predicate DistinctBlockerIds(rows: seq<Blocker>) {
    forall i, j | 0 <= i < j < |rows| :: rows[i].id != rows[j].id
  }

  predicate PriorityExact(priority: seq<string>, packages: Packages) {
    (set id | id in priority) == packages.Keys && |priority| == |set id | id in priority|
  }

  lemma {:induction false} ByIdKeys(rows: seq<Package>, id: string)
    ensures id in ById(rows) <==> exists i | 0 <= i < |rows| :: rows[i].id == id
    ensures id in ById(rows) ==> ById(rows)[id] in rows && ById(rows)[id].id == id
  {
    if rows != [] {
      var init := rows[..|rows| - 1];
      ByIdKeys(init, id);
      if id in ById(init) {
        var i :| 0 <= i < |init| && init[i].id == id;
        assert rows[i].id == id;
      }
      if exists i | 0 <= i < |rows| :: rows[i].id == id {
        var i :| 0 <= i < |rows| && rows[i].id == id;
        assert i < |init| ==> init[i].id == id;
      }
    }
  }

  lemma {:induction false} ByIdFinds(rows: seq<Package>, i: nat)
    requires DistinctIds(rows) && i < |rows|
    ensures rows[i].id in ById(rows) && ById(rows)[rows[i].id] == rows[i]
  {
    if i < |rows| - 1 {
      ByIdFinds(rows[..|rows| - 1], i);
    }
  }

  lemma {:induction false} BlockersByIdKeys(rows: seq<Blocker>, id: string)
    ensures id in BlockersById(rows) <==> exists i | 0 <= i < |rows| :: rows[i].id == id
    ensures id in BlockersById(rows) ==> BlockersById(rows)[id] in rows && BlockersById(rows)[id].id == id
  {
    if rows != [] {
      var init := rows[..|rows| - 1];
      BlockersByIdKeys(init, id);
      if id in BlockersById(init) {
        var i :| 0 <= i < |init| && init[i].id == id;
        assert rows[i].id == id;
      }
      if exists i | 0 <= i < |rows| :: rows[i].id == id {
        var i :| 0 <= i < |rows| && rows[i].id == id;
        assert i < |init| ==> init[i].id == id;
      }
    }
  }

  predicate IdsPresent(rows: seq<Package>) {
    forall i | 0 <= i < |rows| :: rows[i].id != ""
  }

  /** The first row of an id is kept. */
  method IndexPackages(rows: seq<Package>) returns (packages: Packages, kept: seq<Package>, errors: seq<LedgerError>)
    ensures errors == [] <==> IdsPresent(rows) && DistinctIds(rows)
    ensures errors == [] ==> packages == ById(rows) && kept == rows
  {
    packages, kept, errors := map[], [], [];
    for k := 0 to |rows|
      invariant errors == [] <==> IdsPresent(rows[..k]) && DistinctIds(rows[..k])
      invariant errors == [] ==> packages == ById(rows[..k]) && kept == rows[..k]
    {
      var row := rows[k];
      assert rows[..k + 1][..k] == rows[..k] && rows[..k + 1][k] == row;
      ByIdKeys(rows[..k], row.id);
      ghost var upTo, before := rows[..k + 1], rows[..k];
      assert forall i | 0 <= i < k :: upTo[i] == before[i];
      if row.id == "" {
        errors := errors + [IdEmpty(k)];
      } else if row.id in packages {
        errors := errors + [DuplicateId(row.id)];
      } else {
        packages, kept := packages[row.id := row], kept + [row];
      }
    }
    assert rows[..|rows|] == rows;
  }

  ghost predicate BlockersConsistent(rows: seq<Blocker>, packages: Packages) {
    DistinctBlockerIds(rows) && forall i | 0 <= i < |rows| :: BlockerConsistent(rows[i], packages)
  }

  lemma OneMoreBlocker(rows: seq<Blocker>, row: Blocker, packages: Packages)
    ensures BlockersConsistent(rows + [row], packages) <==>
            && BlockersConsistent(rows, packages) && BlockerConsistent(row, packages)
            && forall i | 0 <= i < |rows| :: rows[i].id != row.id
    ensures BlockersById(rows + [row]) == BlockersById(rows)[row.id := row]
  {
    var all := rows + [row];
    assert all[..|rows|] == rows && all[|rows|] == row;
    assert forall i | 0 <= i < |rows| :: all[i] == rows[i];
    if BlockersConsistent(all, packages) {
      assert BlockerConsistent(all[|rows|], packages);
      forall i | 0 <= i < |rows| ensures BlockerConsistent(rows[i], packages) && rows[i].id != row.id {
        assert BlockerConsistent(all[i], packages) && all[i].id != all[|rows|].id;
      }
    }
  }

  method IndexBlockers(rows: seq<Blocker>, packages: Packages) returns (blockers: Blockers, errors: seq<LedgerError>)
    ensures blockers == BlockersById(rows)
    ensures errors == [] <==> BlockersConsistent(rows, packages)
  {
    blockers, errors := map[], [];
    for k := 0 to |rows|
      invariant blockers == BlockersById(rows[..k])
      invariant errors == [] <==> BlockersConsistent(rows[..k], packages)
    {
      var row := rows[k];
      BlockersByIdKeys(rows[..k], row.id);
      OneMoreBlocker(rows[..k], row, packages);
      assert rows[..k + 1] == rows[..k] + [row];
      if row.id in blockers { errors := errors + [DuplicateBlocker(row.id)]; }
      blockers := blockers[row.id := row];
      if row.open.None? { errors := errors + [BlockerStatusUnknown(row.id)]; }
      if row.workPackage !in packages { errors := errors + [BlockerPackageUnknown(row.id)]; }
    }
    assert rows[..|rows|] == rows;
  }

  method CheckDependencies(p: Package, packages: Packages) returns (errors: seq<LedgerError>)
    ensures errors == [] <==> DependenciesKnown(p, packages)
  {
    errors := [];
    for k := 0 to |p.dependsOn|
      invariant errors == [] <==> forall i | 0 <= i < k :: p.dependsOn[i] != p.id && p.dependsOn[i] in packages
    {
      var dependency := p.dependsOn[k];
      if dependency == p.id {
        errors := errors + [SelfDependency(p.id)];
      } else if dependency !in packages {
        errors := errors + [DependencyUnknown(p.id, dependency)];
      }
    }
  }

  method CheckBlockerReferences(p: Package, blockers: Blockers) returns (errors: seq<LedgerError>)
    ensures errors == [] <==> BlockersOwned(p, blockers)
  {
    errors := [];
    for k := 0 to |p.blockers|
      invariant errors == [] <==> forall i | 0 <= i < k ::
                  p.blockers[i] in blockers && blockers[p.blockers[i]].workPackage == p.id
    {
      var id := p.blockers[k];
      if id !in blockers {
        errors := errors + [BlockerUnknown(p.id, id)];
      } else if blockers[id].workPackage != p.id {
        errors := errors + [BlockerOfAnother(p.id, id)];
      }
    }
  }

  method CheckEvidence(id: string, r: Records) returns (errors: seq<LedgerError>)
    ensures errors == [] <==> forall k | 0 <= k < |r.evidence| :: RowOk(r.evidence[k], r.evidenceCommit)
  {
    errors := [];
    for k := 0 to |r.evidence|
      invariant errors == [] <==> forall i | 0 <= i < k :: RowOk(r.evidence[i], r.evidenceCommit)
    {
      if !RowOk(r.evidence[k], r.evidenceCommit) { errors := errors + [EvidenceRowInvalid(id, k)]; }
    }
  }

  method CheckRecords(id: string, r: Records) returns (errors: seq<LedgerError>)
    ensures errors == [] <==> RecordsOk(r)
  {
    errors := [];
    if r.commit != Null && !IsSha(r.commit) { errors := errors + [CommitInvalid(id)]; }
    if r.evidenceCommit != Null && !IsSha(r.evidenceCommit) { errors := errors + [EvidenceCommitInvalid(id)]; }
    var rows := CheckEvidence(id, r);
    errors := errors + rows;
    if r.latest.Some? {
      if !ReceiptKnown(r.latest.value, r.evidence) { errors := errors + [ReceiptUnknown(id)]; }
      if !ForCommit(r.latest.value.commit, r.evidenceCommit) { errors := errors + [ReceiptForAnotherCommit(id)]; }
    }
  }

  method CheckStatus(p: Package) returns (errors: seq<LedgerError>)
    ensures errors == [] <==> StatusConsistent(p)
  {
    errors := [];
    if p.status.UnknownStatus? { errors := errors + [StatusUnknown(p.id)]; }
    if p.gate.UnknownGate? { errors := errors + [GateUnknown(p.id)]; }
    var missing := E.MissingRequiredEvidence(p.records.required, EvidenceOf(p.records.evidence));
    if AtLeastHardwareGreen(p.status) && missing != [] { errors := errors + [EvidenceMissing(p.id)]; }
    if p.proofBanked {
      if !AtLeastHardwareGreen(p.status) { errors := errors + [BankedTooEarly(p.id)]; }
      if missing != [] { errors := errors + [BankedWithoutEvidence(p.id)]; }
    }
    if p.status.HardwareGreen? && !p.proofBanked { errors := errors + [GreenNotBanked(p.id)]; }
    if (p.status.Merged? || p.status.Released?) && !p.implementationMerged {
      errors := errors + [MergedNotImplemented(p.id)];
    }
  }

  method CheckPackage(p: Package) returns (errors: seq<LedgerError>)
    ensures errors == [] <==> PackageConsistent(p)
  {
    var status := CheckStatus(p);
    var records := CheckRecords(p.id, p.records);
    errors := status + records;
  }

  ghost predicate PackageChecked(p: Package, packages: Packages, blockers: Blockers) {
    PackageConsistent(p) && DependenciesKnown(p, packages) && BlockersOwned(p, blockers)
  }

  ghost predicate AllChecked(rows: seq<Package>, packages: Packages, blockers: Blockers) {
    forall i | 0 <= i < |rows| :: PackageChecked(rows[i], packages, blockers)
  }

  predicate AllReferenced(rows: seq<Blocker>, packages: Packages) {
    forall i | 0 <= i < |rows| :: BlockerReferenced(rows[i], packages)
  }

  predicate AllInTime(rows: seq<Package>, packages: Packages) {
    forall i | 0 <= i < |rows| :: DependenciesInTime(rows[i], packages)
  }

  method CheckPackages(rows: seq<Package>, packages: Packages, blockers: Blockers) returns (errors: seq<LedgerError>)
    ensures errors == [] <==> AllChecked(rows, packages, blockers)
  {
    errors := [];
    for k := 0 to |rows|
      invariant errors == [] <==> forall i | 0 <= i < k :: PackageChecked(rows[i], packages, blockers)
    {
      var own := CheckPackage(rows[k]);
      var dependencies := CheckDependencies(rows[k], packages);
      var references := CheckBlockerReferences(rows[k], blockers);
      errors := errors + own + dependencies + references;
    }
  }

  method CheckBlockers(rows: seq<Blocker>, packages: Packages) returns (errors: seq<LedgerError>)
    ensures errors == [] <==> AllReferenced(rows, packages)
  {
    errors := [];
    for k := 0 to |rows|
      invariant errors == [] <==> forall i | 0 <= i < k :: BlockerReferenced(rows[i], packages)
    {
      var row := rows[k];
      if OpenPackageBlocker(row) && row.workPackage in packages && row.id !in packages[row.workPackage].blockers {
        errors := errors + [BlockerNotReferenced(row.id)];
      }
    }
  }

  method CheckDependencyOrder(p: Package, packages: Packages) returns (errors: seq<LedgerError>)
    ensures errors == [] <==> DependenciesInTime(p, packages)
  {
    errors := [];
    if p.status.Blocked? {
      return;
    }
    for k := 0 to |p.dependsOn|
      invariant errors == [] <==> forall i | 0 <= i < k ::
                  p.dependsOn[i] in packages ==> DependencySatisfied(packages[p.dependsOn[i]])
    {
      var dependency := p.dependsOn[k];
      if dependency in packages && !DependencySatisfied(packages[dependency]) {
        errors := errors + [DependencyNotSatisfied(p.id, dependency)];
      }
    }
  }

  method CheckOrder(rows: seq<Package>, packages: Packages) returns (errors: seq<LedgerError>)
    ensures errors == [] <==> AllInTime(rows, packages)
  {
    errors := [];
    for k := 0 to |rows|
      invariant errors == [] <==> forall i | 0 <= i < k :: DependenciesInTime(rows[i], packages)
    {
      var more := CheckDependencyOrder(rows[k], packages);
      errors := errors + more;
    }
  }

  ghost predicate Checked(ledger: Ledger, packages: Packages, blockers: Blockers) {
    && ledger.headExact
    && IdsPresent(ledger.packages) && DistinctIds(ledger.packages)
    && BlockersConsistent(ledger.blockers, packages)
    && AllChecked(ledger.packages, packages, blockers)
    && AllReferenced(ledger.blockers, packages)
    && AllInTime(ledger.packages, packages)
    && PriorityExact(ledger.priority, packages)
    && (ReadyPosture(ledger.posture) ==> PendingWorkPackages(ledger) == [])
  }

  /** `validate_ledger`. */
  method ValidateWork(ledger: Ledger) returns (errors: seq<LedgerError>)
    ensures errors == [] <==> Checked(ledger, ById(ledger.packages), BlockersById(ledger.blockers))
  {
    var packages, kept, packageErrors := IndexPackages(ledger.packages);
    var blockers, blockerErrors := IndexBlockers(ledger.blockers, packages);
    var own := CheckPackages(kept, packages, blockers);
    var references := CheckBlockers(ledger.blockers, packages);
    var order := CheckOrder(kept, packages);
    errors := packageErrors + blockerErrors + own + references + order;
    if !ledger.headExact {
      errors := errors + [HeadInvalid];
    }
    var listed := set id | id in ledger.priority;
    if listed != packages.Keys {
      errors := errors + [PriorityIncomplete];
    } else if |ledger.priority| != |listed| {
      errors := errors + [PriorityRepeats];
    }
    if ReadyPosture(ledger.posture) && PendingWorkPackages(ledger) != [] {
      errors := errors + [PostureTooEarly];
    }
  }

  // ----- what the checks are worth to the scheduler

  /** A complete package satisfies its dependents. */
  lemma CompleteSatisfies(p: Package)
    requires PackageConsistent(p) && PackageComplete(p)
    ensures DependencySatisfied(p)
  {
  }

  /** ... but a package can satisfy them before it is complete. */
  lemma SatisfiedNotComplete(p: Package)
    requires p.gate.ImplementationMergedGate? && p.implementationMerged && p.status.HostGreen?
    ensures DependencySatisfied(p) && !PackageComplete(p)
  {
  }

  /** No open package blocker belongs to the package. */
  predicate Unblocked(blockers: seq<Blocker>, id: string) {
    forall i | 0 <= i < |blockers| :: OpenPackageBlocker(blockers[i]) ==> blockers[i].workPackage != id
  }

  function IsFree(packages: Packages, blockers: seq<Blocker>): string -> bool {
    (id: string) => id in packages && !packages[id].status.Blocked? && Unblocked(blockers, id)
  }

  /** In a checked ledger a package refers to an open blocker exactly when one is its own. */
  lemma ReferencesAreOwn(ledger: Ledger, i: nat)
    requires Checked(ledger, ById(ledger.packages), BlockersById(ledger.blockers)) && i < |ledger.packages|
    ensures ReferencesOpen(OpenBlockerIds(ledger.blockers), ledger.packages[i])
            <==> !Unblocked(ledger.blockers, ledger.packages[i].id)
  {
    var p, packages, blockers := ledger.packages[i], ById(ledger.packages), BlockersById(ledger.blockers);
    var open := OpenBlockerIds(ledger.blockers);
    assert PackageChecked(p, packages, blockers);
    ByIdFinds(ledger.packages, i);
    if ReferencesOpen(open, p) {
      var k :| 0 <= k < |p.blockers| && p.blockers[k] in open;
      var b :| 0 <= b < |ledger.blockers| && OpenPackageBlocker(ledger.blockers[b])
        && ledger.blockers[b].id == p.blockers[k];
      BlockersByIdKeys(ledger.blockers, p.blockers[k]);
      var c :| 0 <= c < |ledger.blockers| && ledger.blockers[c] == blockers[p.blockers[k]];
      assert b == c;
    }
    if !Unblocked(ledger.blockers, p.id) {
      var b :| 0 <= b < |ledger.blockers| && OpenPackageBlocker(ledger.blockers[b])
        && ledger.blockers[b].workPackage == p.id;
      assert BlockerReferenced(ledger.blockers[b], packages);
      assert ledger.blockers[b].id in open;
    }
  }

  /** In a checked ledger the dependencies of a package that is not blocked are met. */
  lemma DependenciesAreMet(ledger: Ledger, i: nat)
    requires Checked(ledger, ById(ledger.packages), BlockersById(ledger.blockers)) && i < |ledger.packages|
    requires !ledger.packages[i].status.Blocked?
    ensures DependenciesMet(ById(ledger.packages), ledger.packages[i])
  {
    assert PackageChecked(ledger.packages[i], ById(ledger.packages), BlockersById(ledger.blockers));
    assert DependenciesInTime(ledger.packages[i], ById(ledger.packages));
  }

  lemma RunnableIff(ledger: Ledger, id: string)
    requires Checked(ledger, ById(ledger.packages), BlockersById(ledger.blockers))
    ensures var packages := ById(ledger.packages);
            IsRunnable(packages, OpenBlockerIds(ledger.blockers))(id)
            <==> IsPending(packages)(id) && IsFree(packages, ledger.blockers)(id)
  {
    var packages := ById(ledger.packages);
    ByIdKeys(ledger.packages, id);
    if id in packages {
      var i :| 0 <= i < |ledger.packages| && ledger.packages[i] == packages[id];
      ReferencesAreOwn(ledger, i);
      if !packages[id].status.Blocked? { DependenciesAreMet(ledger, i); }
    }
  }

  lemma {:induction false} FilterTwice(ids: seq<string>, f: string -> bool, g: string -> bool, both: string -> bool)
    requires forall id :: both(id) <==> f(id) && g(id)
    ensures Filter(Filter(ids, f), g) == Filter(ids, both)
  {
    if ids != [] {
      var init, last := ids[..|ids| - 1], ids[|ids| - 1];
      FilterTwice(init, f, g, both);
      if f(last) {
        var some := Filter(init, f) + [last];
        assert some[..|some| - 1] == Filter(init, f);
      } else {
        assert Filter(ids, f) == Filter(init, f);
      }
    }
  }

  /** In a ledger the checks accept, the scheduler offers, in priority order, the pending packages
      that are not blocked and own no open package blocker: its dependency test adds nothing. */
  lemma RunnableIsFreePending(ledger: Ledger)
    requires Checked(ledger, ById(ledger.packages), BlockersById(ledger.blockers))
    ensures Filter(ledger.priority, IsRunnable(ById(ledger.packages), OpenBlockerIds(ledger.blockers)))
         == Filter(PendingWorkPackages(ledger), IsFree(ById(ledger.packages), ledger.blockers))
  {
    var packages := ById(ledger.packages);
    var runnable := IsRunnable(packages, OpenBlockerIds(ledger.blockers));
    forall id ensures runnable(id) <==> IsPending(packages)(id) && IsFree(packages, ledger.blockers)(id) {
      RunnableIff(ledger, id);
    }
    FilterTwice(ledger.priority, IsPending(packages), IsFree(packages, ledger.blockers), runnable);
  }

  /** In a ledger the checks accept, "release ready" is a matter of the declared posture: its test for
      pending packages adds nothing. */
  lemma ReleaseReadyIff(ledger: Ledger)
    requires Checked(ledger, ById(ledger.packages), BlockersById(ledger.blockers))
    ensures ReleaseReady(ledger) <==> ReadyPosture(ledger.posture)
    ensures ReleaseReady(ledger) ==>
              forall i | 0 <= i < |ledger.packages| ::
                PackageComplete(ledger.packages[i]) && ledger.packages[i].id in ledger.priority
  {
    if ReleaseReady(ledger) {
      var packages := ById(ledger.packages);
      forall i | 0 <= i < |ledger.packages|
        ensures PackageComplete(ledger.packages[i]) && ledger.packages[i].id in ledger.priority
      {
        ByIdFinds(ledger.packages, i);
        assert ledger.packages[i].id in packages.Keys;
        NothingKept(ledger.priority, IsPending(packages), ledger.packages[i].id);
      }
    }
  }

  lemma {:induction false} NothingKept(ids: seq<string>, keep: string -> bool, id: string)
    requires Filter(ids, keep) == [] && id in ids
    ensures !keep(id)
  {
    if id != ids[|ids| - 1] {
      NothingKept(ids[..|ids| - 1], keep, id);
    }
  }
}
