/** The producer's loops: software cycles, then cold cycles, each receipt naming its predecessor
    (scripts/core_reboot_persistence_d1l.py). */
module RebootProducer {
  import opened Common
  import opened Json
  import opened Text
  import opened RetainedState
  import opened RebootMatrix
  import opened RebootLoops

  /** What running one cycle yields: the observation and the other content of its receipt, and
      whether it closed. */
  datatype CycleRun = CycleRun(observed: Observation, rest: Dict, ok: bool)

  /** The arguments every cycle shares. */
  datatype Plan = Plan(
    hash: Hash, directory: string, matrixId: string, seed: Digest, flash: Digest,
    run: (CycleType, nat) -> CycleRun)

  function CyclePath(directory: string, key: Key): string {
    directory + "/" + key.kind.Name() + "_" + Decimal(key.ordinal) + ".json"
  }

  function CycleId(matrixId: string, key: Key): string {
    matrixId + ":" + key.kind.Name() + ":" + Decimal(key.ordinal)
  }

  function Receipt(plan: Plan, key: Key, previous: Digest): Cycle {
    Cycle(previous, plan.seed, plan.flash, CycleId(plan.matrixId, key), Some(key.kind), Some(key.ordinal as int),
          plan.run(key.kind, key.ordinal).observed, plan.run(key.kind, key.ordinal).rest)
  }

  /** A cycle key can be read back from text that names its type and then its ordinal. */
  lemma KeyReadsBack(a: Key, b: Key, middle: string, tail: string)
    requires a.kind.Name() + (middle + (Decimal(a.ordinal) + tail))
        == b.kind.Name() + (middle + (Decimal(b.ordinal) + tail))
    ensures a == b
  {
    var s, t := middle + (Decimal(a.ordinal) + tail), middle + (Decimal(b.ordinal) + tail);
    assert (a.kind.Name() + s)[0] == a.kind.Name()[0] && (b.kind.Name() + t)[0] == b.kind.Name()[0];
    assert a.kind == b.kind;
    CancelPrefix(a.kind.Name(), s, t);
    CancelPrefix(middle, Decimal(a.ordinal) + tail, Decimal(b.ordinal) + tail);
    CancelSuffix(Decimal(a.ordinal), Decimal(b.ordinal), tail);
    DecimalInjective(a.ordinal, b.ordinal);
  }

  /** Text after a fixed head. */
  lemma AfterHead(a: string, b: string, n: string, c: string, d: string, e: string)
    ensures a + b + n + c + d + e == (a + b) + (n + (c + (d + e)))
  {
  }

  lemma PathNamesKey(directory: string, a: Key, b: Key)
    requires CyclePath(directory, a) == CyclePath(directory, b)
    ensures a == b
  {
    AfterHead(directory, "/", a.kind.Name(), "_", Decimal(a.ordinal), ".json");
    AfterHead(directory, "/", b.kind.Name(), "_", Decimal(b.ordinal), ".json");
    TextNamesKey(directory + "/", a, b, "_", ".json");
  }

  lemma IdNamesKey(matrixId: string, a: Key, b: Key)
    requires CycleId(matrixId, a) == CycleId(matrixId, b)
    ensures a == b
  {
    AfterHead(matrixId, ":", a.kind.Name(), ":", Decimal(a.ordinal), "");
    AfterHead(matrixId, ":", b.kind.Name(), ":", Decimal(b.ordinal), "");
    assert CycleId(matrixId, a) + "" == CycleId(matrixId, b) + "";
    TextNamesKey(matrixId + ":", a, b, ":", "");
  }

  lemma TextNamesKey(head: string, a: Key, b: Key, middle: string, tail: string)
    requires head + (a.kind.Name() + (middle + (Decimal(a.ordinal) + tail)))
          == head + (b.kind.Name() + (middle + (Decimal(b.ordinal) + tail)))
    ensures a == b
  {
    CancelPrefix(
      head, a.kind.Name() + (middle + (Decimal(a.ordinal) + tail)),
      b.kind.Name() + (middle + (Decimal(b.ordinal) + tail)));
    KeyReadsBack(a, b, middle, tail);
  }

  lemma KeysDiffer(plan: Plan, a: Key, b: Key)
    requires a != b
    ensures CyclePath(plan.directory, a) != CyclePath(plan.directory, b)
    ensures CycleId(plan.matrixId, a) != CycleId(plan.matrixId, b)
  {
    if CyclePath(plan.directory, a) == CyclePath(plan.directory, b) { PathNamesKey(plan.directory, a, b); }
    if CycleId(plan.matrixId, a) == CycleId(plan.matrixId, b) { IdNamesKey(plan.matrixId, a, b); }
  }

  /** Row `i` is the file of cycle `i`, whose receipt names row `i - 1`. */
  predicate RowBuilt(plan: Plan, files: Files, rows: seq<FileRow>, software: nat, i: nat)
    requires i < |rows|
  {
    var document := CycleReceipt(Receipt(plan, KeyAt(i, software), PreviousDigest(plan.flash, rows, i)));
    && rows[i].path == CyclePath(plan.directory, KeyAt(i, software))
    && rows[i].path in files && files[rows[i].path] == document
    && rows[i].sha256 == plan.hash(document)
  }

  predicate RowsBuilt(plan: Plan, files: Files, rows: seq<FileRow>, software: nat) {
    forall i | 0 <= i < |rows| :: RowBuilt(plan, files, rows, software, i)
  }

  /** The path is not one of the receipts'. */
  predicate NoCyclePath(plan: Plan, path: string, software: nat, cold: nat) {
    forall i | 0 <= i < software + cold :: path != CyclePath(plan.directory, KeyAt(i, software))
  }

  predicate Ran(plan: Plan, software: nat, i: nat) {
    plan.run(KeyAt(i, software).kind, KeyAt(i, software).ordinal).ok
  }

  /** Writes the next receipt and records its row. */
  method RunOne(plan: Plan, files: Files, rows: seq<FileRow>, tail: Digest, software: nat)
    returns (newFiles: Files, newRows: seq<FileRow>, newTail: Digest, ok: bool)
    requires RowsBuilt(plan, files, rows, software)
    requires tail == PreviousDigest(plan.flash, rows, |rows|)
    ensures |newRows| == |rows| + 1 && RowsBuilt(plan, newFiles, newRows, software)
    ensures newTail == PreviousDigest(plan.flash, newRows, |newRows|)
    ensures ok <==> Ran(plan, software, |rows|)
    ensures newFiles.Keys == files.Keys + {CyclePath(plan.directory, KeyAt(|rows|, software))}
    ensures forall path | path in files && path != CyclePath(plan.directory, KeyAt(|rows|, software)) ::
              newFiles[path] == files[path]
  {
    var key := KeyAt(|rows|, software);
    var cycle := Receipt(plan, key, tail);
    var path := CyclePath(plan.directory, key);
    newFiles := files[path := CycleReceipt(cycle)];
    var row := FileRow(path, plan.hash(CycleReceipt(cycle)));
    newRows := rows + [row];
    newTail := row.sha256;
    ok := plan.run(key.kind, key.ordinal).ok;
    forall i | 0 <= i < |newRows| ensures RowBuilt(plan, newFiles, newRows, software, i) {
      if i < |rows| {
        assert RowBuilt(plan, files, rows, software, i);
        KeysDiffer(plan, KeyAt(i, software), key);
      }
    }
  }

  /** The software loop and then, only when every software cycle closed, the cold loop; each stops
      at the first cycle that does not close. */
  method RunCycles(
    plan: Plan, before: Files, software: nat := SOFTWARE_CYCLE_COUNT, cold: nat := COLD_CYCLE_COUNT)
    returns (files: Files, rows: seq<FileRow>, tail: Digest, allOk: bool)
    ensures |rows| <= software + cold && RowsBuilt(plan, files, rows, software)
    ensures tail == PreviousDigest(plan.flash, rows, |rows|)
    ensures forall i | 0 <= i < |rows| - 1 :: Ran(plan, software, i)
    ensures allOk <==> |rows| == software + cold && forall i | 0 <= i < |rows| :: Ran(plan, software, i)
    ensures !allOk ==> rows != [] && !Ran(plan, software, |rows| - 1)
    ensures forall path | path in before && NoCyclePath(plan, path, software, cold) ::
              path in files && files[path] == before[path]
  {
    files, rows, tail, allOk := before, [], plan.flash, true;
    var ordinal := 0;
    while ordinal < software && allOk
      invariant |rows| == ordinal <= software && RowsBuilt(plan, files, rows, software)
      invariant tail == PreviousDigest(plan.flash, rows, |rows|)
      invariant forall i | 0 <= i < |rows| - 1 :: Ran(plan, software, i)
      invariant allOk <==> (rows == [] || Ran(plan, software, |rows| - 1))
      invariant forall path | path in before && NoCyclePath(plan, path, software, cold) ::
                  path in files && files[path] == before[path]
      decreases software - ordinal
    {
      ordinal := ordinal + 1;
      files, rows, tail, allOk := RunOne(plan, files, rows, tail, software);
    }
    if allOk {
      ordinal := 0;
      while ordinal < cold && allOk
        invariant |rows| == software + ordinal <= software + cold && RowsBuilt(plan, files, rows, software)
        invariant tail == PreviousDigest(plan.flash, rows, |rows|)
        invariant forall i | 0 <= i < |rows| - 1 :: Ran(plan, software, i)
        invariant allOk <==> (rows == [] || Ran(plan, software, |rows| - 1))
        invariant forall path | path in before && NoCyclePath(plan, path, software, cold) ::
                    path in files && files[path] == before[path]
        decreases cold - ordinal
      {
        ordinal := ordinal + 1;
        files, rows, tail, allOk := RunOne(plan, files, rows, tail, software);
      }
    }
  }

  /** The cycles carry the keys of the plan, in order. */
  ghost predicate KeysInOrder(cycles: seq<Cycle>, software: nat) {
    forall i | 0 <= i < |cycles| ::
      cycles[i].kind == Some(KeyAt(i, software).kind) && cycles[i].ordinal == Some(KeyAt(i, software).ordinal as int)
  }

  lemma {:induction false} TypesAre(cycles: seq<Cycle>, software: nat, cold: nat)
    requires |cycles| <= software + cold && KeysInOrder(cycles, software)
    ensures Types(cycles) == (Repeat(Software, software) + Repeat(Cold, cold))[..|cycles|]
  {
    if cycles != [] {
      var init := cycles[..|cycles| - 1];
      TypesAre(init, software, cold);
      var all := Repeat(Software, software) + Repeat(Cold, cold);
      assert all[..|cycles|] == all[..|init|] + [all[|init|]];
    }
  }

  lemma {:induction false} OrdinalsAre(cycles: seq<Cycle>, software: nat)
    requires KeysInOrder(cycles, software)
    ensures Ordinals(cycles, Software) == UpTo(if |cycles| < software then |cycles| else software)
    ensures Ordinals(cycles, Cold) == UpTo(if |cycles| < software then 0 else |cycles| - software)
  {
    if cycles != [] {
      OrdinalsAre(cycles[..|cycles| - 1], software);
    }
  }

  lemma TypesInOrder(cycles: seq<Cycle>, software: nat, cold: nat)
    requires |cycles| <= software + cold && KeysInOrder(cycles, software)
    ensures Types(cycles) == (Repeat(Software, software) + Repeat(Cold, cold))[..|cycles|]
    ensures Ordinals(cycles, Software) == UpTo(if |cycles| < software then |cycles| else software)
    ensures Ordinals(cycles, Cold) == UpTo(if |cycles| < software then 0 else |cycles| - software)
  {
    TypesAre(cycles, software, cold);
    OrdinalsAre(cycles, software);
  }

  /** The receipts the rows point at. */
  function BuiltReceipts(files: Files, rows: seq<FileRow>): set<Document> {
    set row | row in rows && row.path in files :: files[row.path]
  }

  lemma BuiltRowsDiffer(plan: Plan, files: Files, rows: seq<FileRow>, software: nat, i: nat, j: nat)
    requires RowsBuilt(plan, files, rows, software) && i < j < |rows|
    ensures rows[i].path != rows[j].path
    ensures CycleId(plan.matrixId, KeyAt(i, software)) != CycleId(plan.matrixId, KeyAt(j, software))
    ensures NoCollision(plan.hash, BuiltReceipts(files, rows), BuiltReceipts(files, rows)) ==>
        rows[i].sha256 != rows[j].sha256
  {
    KeysDiffer(plan, KeyAt(i, software), KeyAt(j, software));
    assert RowBuilt(plan, files, rows, software, i) && RowBuilt(plan, files, rows, software, j);
    var a, b := files[rows[i].path], files[rows[j].path];
    assert a.cycle.id != b.cycle.id;
    assert a in BuiltReceipts(files, rows) && b in BuiltReceipts(files, rows);
    assert plan.hash(a) == rows[i].sha256 && plan.hash(b) == rows[j].sha256;
  }

  lemma BuiltRowsLinked(plan: Plan, files: Files, rows: seq<FileRow>, software: nat)
    requires RowsBuilt(plan, files, rows, software)
    ensures RowsValid(plan.hash, files, rows)
    ensures LinksHold(plan.seed, plan.flash, rows, CyclesOf(files, rows))
    ensures var cycles := CyclesOf(files, rows);
            forall i | 0 <= i < |cycles| ::
              && cycles[i].kind == Some(KeyAt(i, software).kind)
              && cycles[i].ordinal == Some(KeyAt(i, software).ordinal as int)
              && cycles[i].id == CycleId(plan.matrixId, KeyAt(i, software))
  {
    forall i | 0 <= i < |rows|
      ensures RowValid(plan.hash, files, rows[i]) && files[rows[i].path].CycleReceipt?
      ensures CyclesOf(files, rows)[i] == Receipt(plan, KeyAt(i, software), PreviousDigest(plan.flash, rows, i))
    {
      assert RowBuilt(plan, files, rows, software, i);
    }
  }

  lemma BuiltRowsDistinct(plan: Plan, files: Files, rows: seq<FileRow>, software: nat)
    requires RowsBuilt(plan, files, rows, software)
    ensures Distinct(Paths(rows)) && Distinct(Ids(CyclesOf(files, rows)))
    ensures NoCollision(plan.hash, BuiltReceipts(files, rows), BuiltReceipts(files, rows)) ==> Distinct(Digests(rows))
  {
    BuiltRowsLinked(plan, files, rows, software);
    var paths, ids := Paths(rows), Ids(CyclesOf(files, rows));
    forall i, j | 0 <= i < j < |rows| ensures paths[i] != paths[j] && ids[i] != ids[j] {
      BuiltRowsDiffer(plan, files, rows, software, i, j);
    }
    if NoCollision(plan.hash, BuiltReceipts(files, rows), BuiltReceipts(files, rows)) {
      BuiltDigestsDistinct(plan, files, rows, software);
    }
  }

  lemma BuiltDigestsDistinct(plan: Plan, files: Files, rows: seq<FileRow>, software: nat)
    requires RowsBuilt(plan, files, rows, software)
    requires NoCollision(plan.hash, BuiltReceipts(files, rows), BuiltReceipts(files, rows))
    ensures Distinct(Digests(rows))
  {
    var digests := Digests(rows);
    forall i, j | 0 <= i < j < |rows| ensures digests[i] != digests[j] {
      BuiltRowsDiffer(plan, files, rows, software, i, j);
    }
  }

  /** A digest that tells receipts by their cycle id. */
  function DigestOfId(document: Document): Digest {
    if document.CycleReceipt? then document.cycle.id else ""
  }

  /** With it no run of the producer has a collision, so the assumption on the digest can be met. */
  lemma DigestOfIdSeparates(plan: Plan, files: Files, rows: seq<FileRow>, software: nat)
    requires RowsBuilt(plan, files, rows, software)
    requires forall document :: plan.hash(document) == DigestOfId(document)
    ensures NoCollision(plan.hash, BuiltReceipts(files, rows), BuiltReceipts(files, rows))
  {
    var built := BuiltReceipts(files, rows);
    forall a, b | a in built && b in built && plan.hash(a) == plan.hash(b) ensures a == b {
      var i :| 0 <= i < |rows| && rows[i].path in files && files[rows[i].path] == a;
      var j :| 0 <= j < |rows| && rows[j].path in files && files[rows[j].path] == b;
      assert RowBuilt(plan, files, rows, software, i) && RowBuilt(plan, files, rows, software, j);
      if i < j { BuiltRowsDiffer(plan, files, rows, software, i, j); }
      if j < i { BuiltRowsDiffer(plan, files, rows, software, j, i); }
    }
  }

  /** The report of a run: its rows, and whether their digests all differ. */
  function ReportOf(
    headExact: bool, seedRow: FileRow, flashRow: FileRow, live: Capture, rows: seq<FileRow>, tail: Digest): Matrix
  {
    Matrix(headExact, seedRow, flashRow, live, rows, tail, Distinct(Digests(rows)))
  }

  /** A complete run of the producer's loops passes the validator's chain checks exactly when no two
      of its receipts share a digest, so always when the digest does not collide on them. */
  lemma CompleteRunPassesChainChecks(
    plan: Plan, files: Files, rows: seq<FileRow>, software: nat, cold: nat,
    headExact: bool, seedRow: FileRow, flashRow: FileRow, live: Capture)
    requires RowsBuilt(plan, files, rows, software) && |rows| == software + cold
    requires plan.seed == seedRow.sha256 && plan.flash == flashRow.sha256
    ensures var matrix := ReportOf(headExact, seedRow, flashRow, live, rows, PreviousDigest(plan.flash, rows, |rows|));
            ChainChecks(plan.hash, files, matrix, software, cold) <==> Distinct(Digests(rows))
    ensures NoCollision(plan.hash, BuiltReceipts(files, rows), BuiltReceipts(files, rows)) ==> Distinct(Digests(rows))
  {
    BuiltRowsLinked(plan, files, rows, software);
    BuiltRowsDistinct(plan, files, rows, software);
    var cycles := CyclesOf(files, rows);
    TypesInOrder(cycles, software, cold);
    assert (Repeat(Software, software) + Repeat(Cold, cold))[..|cycles|]
        == Repeat(Software, software) + Repeat(Cold, cold);
  }

  // ----- producing, then validating

  /** Every cycle of the plan observes what the validator accepts. */
  predicate RunsAccepted(plan: Plan, baseline: State, reader: StateReader, software: nat, n: nat) {
    forall i | 0 <= i < n ::
      ObservationAccepted(baseline, plan.run(KeyAt(i, software).kind, KeyAt(i, software).ordinal).observed, reader)
  }

  lemma BuiltCyclesAccepted(
    plan: Plan, files: Files, rows: seq<FileRow>, software: nat, baseline: State, reader: StateReader)
    requires RowsBuilt(plan, files, rows, software)
    ensures CyclesAccepted(baseline, CyclesOf(files, rows), reader)
       <==> RunsAccepted(plan, baseline, reader, software, |rows|)
  {
    var cycles := CyclesOf(files, rows);
    forall i | 0 <= i < |rows|
      ensures cycles[i].observed == plan.run(KeyAt(i, software).kind, KeyAt(i, software).ordinal).observed
    {
      assert RowBuilt(plan, files, rows, software, i);
    }
    if CyclesAccepted(baseline, cycles, reader) {
      forall i | 0 <= i < |rows|
        ensures ObservationAccepted(
                  baseline, plan.run(KeyAt(i, software).kind, KeyAt(i, software).ordinal).observed, reader)
      {
        assert CycleAccepted(baseline, cycles[i], reader);
      }
    }
  }

  /** The producer's loops, its report, and the validator over that report. Files other than the
      cycle receipts are there before the loops and stay as they are; the report of a complete run
      is then valid exactly when its head is, every cycle observed what the validator accepts, and
      no two receipts share a digest. */
  method ProduceAndValidate(
    plan: Plan, before: Files, headExact: bool, seedRow: FileRow, flashRow: FileRow, live: Capture, reader: StateReader,
    software: nat := SOFTWARE_CYCLE_COUNT, cold: nat := COLD_CYCLE_COUNT)
    returns (files: Files, matrix: Matrix, complete: bool, errors: seq<MatrixError>)
    requires plan.seed == seedRow.sha256 && plan.flash == flashRow.sha256
    requires seedRow.path in before && NoCyclePath(plan, seedRow.path, software, cold)
    requires flashRow.path in before && NoCyclePath(plan, flashRow.path, software, cold)
    ensures RowsBuilt(plan, files, matrix.cycleRows, software)
    ensures complete <==> forall i | 0 <= i < software + cold :: Ran(plan, software, i)
    ensures complete ==> |matrix.cycleRows| == software + cold
    ensures !complete ==> errors == []
    ensures complete ==> (errors == [] <==> MatrixAccepted(plan.hash, files, matrix, reader, software, cold))
    ensures complete ==>
              (errors == [] <==>
                 && HeadAccepted(plan.hash, before, matrix, reader)
                 && RunsAccepted(plan, Baseline(before, matrix, reader), reader, software, software + cold)
                 && Distinct(Digests(matrix.cycleRows)))
    ensures NoCollision(plan.hash, BuiltReceipts(files, matrix.cycleRows), BuiltReceipts(files, matrix.cycleRows))
            ==> Distinct(Digests(matrix.cycleRows))
  {
    var rows, tail;
    files, rows, tail, complete := RunCycles(plan, before, software, cold);
    matrix := ReportOf(headExact, seedRow, flashRow, live, rows, tail);
    BuiltRowsDistinct(plan, files, rows, software);
    errors := [];
    if complete {
      errors := ValidateMatrix(plan.hash, files, matrix, reader, software, cold);
      CompleteRunPassesChainChecks(plan, files, rows, software, cold, headExact, seedRow, flashRow, live);
      assert files[seedRow.path] == before[seedRow.path] && files[flashRow.path] == before[flashRow.path];
      assert HeadAccepted(plan.hash, files, matrix, reader) <==> HeadAccepted(plan.hash, before, matrix, reader);
      if HeadAccepted(plan.hash, before, matrix, reader) {
        BuiltCyclesAccepted(plan, files, rows, software, Baseline(before, matrix, reader), reader);
      }
    }
  }
}
