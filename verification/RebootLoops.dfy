/** The validator's loop over the cycles of a finished matrix, proved against the conditions of
    RebootMatrix (scripts/core_reboot_persistence_d1l.py). */
module RebootLoops {
  import opened Common
  import opened RetainedState
  import opened RebootMatrix

  // ----- the validator

  /** The checks of one turn of the loop (`cycleOk` is the verdict of `recompute_cycle`), against
      what the earlier turns have seen. */
  predicate RowOk(
    hash: Hash, files: Files, matrix: Matrix, cycleOk: Cycle -> bool, k: nat)
    requires k < |matrix.cycleRows|
  {
    var rows, cycles := matrix.cycleRows, CyclesOf(files, matrix.cycleRows);
    && RowValid(hash, files, rows[k]) && files[rows[k].path].CycleReceipt?
    && rows[k].path !in Paths(rows)[..k]
    && rows[k].sha256 !in Digests(rows)[..k]
    && cycles[k].id !in Ids(cycles)[..k]
    && cycles[k].previous == PreviousDigest(matrix.flashRow.sha256, rows, k)
    && cycles[k].seed == matrix.seedRow.sha256
    && cycles[k].flash == matrix.flashRow.sha256
    && cycleOk(cycles[k])
  }

  predicate RowsOk(
    hash: Hash, files: Files, matrix: Matrix, cycleOk: Cycle -> bool, n: nat)
    requires n <= |matrix.cycleRows|
  {
    n == 0 || (RowsOk(hash, files, matrix, cycleOk, n - 1) && RowOk(hash, files, matrix, cycleOk, n - 1))
  }

  lemma {:induction false} RowsOkEach(
    hash: Hash, files: Files, matrix: Matrix, cycleOk: Cycle -> bool, n: nat)
    requires n <= |matrix.cycleRows|
    ensures RowsOk(hash, files, matrix, cycleOk, n)
       <==> forall k | 0 <= k < n :: RowOk(hash, files, matrix, cycleOk, k)
  {
    if n > 0 {
      RowsOkEach(hash, files, matrix, cycleOk, n - 1);
    }
  }

  lemma DistinctByFreshness<T>(s: seq<T>)
    ensures Distinct(s) <==> forall k | 0 <= k < |s| :: s[k] !in s[..k]
  {
    if Distinct(s) {
      forall k | 0 <= k < |s| ensures s[k] !in s[..k] {
        forall i | 0 <= i < k ensures s[..k][i] != s[k] {
          assert s[i] != s[k];
        }
      }
    }
    if forall k | 0 <= k < |s| :: s[k] !in s[..k] {
      forall i, j | 0 <= i < j < |s| ensures s[i] != s[j] {
        assert s[..j][i] == s[i];
      }
    }
  }

  /** The turns of the loop together say what `ChainChecks` and the cycle checks say. */
  lemma AllRowsOk(hash: Hash, files: Files, matrix: Matrix, cycleOk: Cycle -> bool)
    ensures var rows, cycles := matrix.cycleRows, CyclesOf(files, matrix.cycleRows);
            RowsOk(hash, files, matrix, cycleOk, |rows|)
            <==>
            (&& RowsValid(hash, files, rows)
             && LinksHold(matrix.seedRow.sha256, matrix.flashRow.sha256, rows, cycles)
             && Distinct(Paths(rows)) && Distinct(Digests(rows)) && Distinct(Ids(cycles))
             && forall i | 0 <= i < |rows| :: cycleOk(cycles[i]))
  {
    var rows, cycles := matrix.cycleRows, CyclesOf(files, matrix.cycleRows);
    RowsOkEach(hash, files, matrix, cycleOk, |rows|);
    DistinctByFreshness(Paths(rows));
    DistinctByFreshness(Digests(rows));
    DistinctByFreshness(Ids(cycles));
    var paths, digests, ids := Paths(rows), Digests(rows), Ids(cycles);
    assert |paths| == |digests| == |ids| == |rows|;
    forall k | 0 <= k < |rows|
      ensures RowOk(hash, files, matrix, cycleOk, k) <==>
              (&& RowValid(hash, files, rows[k]) && files[rows[k].path].CycleReceipt?
               && paths[k] !in paths[..k] && digests[k] !in digests[..k] && ids[k] !in ids[..k]
               && cycles[k].previous == PreviousDigest(matrix.flashRow.sha256, rows, k)
               && cycles[k].seed == matrix.seedRow.sha256 && cycles[k].flash == matrix.flashRow.sha256
               && cycleOk(cycles[k]))
    {
    }
  }

  predicate FreshRow(
    seenPaths: set<string>, seenDigests: set<Digest>, seenIds: set<string>,
    rows: seq<FileRow>, cycles: seq<Cycle>, k: nat)
  {
    && k <= |rows| == |cycles|
    && seenPaths == Members(Paths(rows)[..k])
    && seenDigests == Members(Digests(rows)[..k])
    && seenIds == Members(Ids(cycles)[..k])
  }

  method CheckRow(
    hash: Hash, files: Files, matrix: Matrix, cycleOk: Cycle -> bool, k: nat,
    seenPaths: set<string>, seenDigests: set<Digest>, seenIds: set<string>, expectedPrevious: Digest)
    returns (errors: seq<MatrixError>)
    requires k < |matrix.cycleRows|
    ensures FreshRow(seenPaths, seenDigests, seenIds, matrix.cycleRows, CyclesOf(files, matrix.cycleRows), k)
            && expectedPrevious == PreviousDigest(matrix.flashRow.sha256, matrix.cycleRows, k)
            ==> (errors == [] <==> RowOk(hash, files, matrix, cycleOk, k))
    ensures errors == [] ==>
              matrix.cycleRows[k].path in files && files[matrix.cycleRows[k].path].CycleReceipt?
  {
    var row := matrix.cycleRows[k];
    errors := [];
    if !RowValid(hash, files, row) {
      errors := errors + [FileRowInvalid(k)];
    }
    if row.path in seenPaths {
      errors := errors + [DuplicatePath];
    }
    if row.sha256 in seenDigests {
      errors := errors + [DuplicateDigest];
    }
    if row.path !in files || !files[row.path].CycleReceipt? {
      return errors + [CycleRejected(k)];
    }
    var cycle := files[row.path].cycle;
    assert cycle == CyclesOf(files, matrix.cycleRows)[k];
    if cycle.id in seenIds {
      errors := errors + [DuplicateCycleId];
    }
    if cycle.previous != expectedPrevious {
      errors := errors + [ChainMismatch(k)];
    }
    if cycle.seed != matrix.seedRow.sha256 {
      errors := errors + [SeedDigestMismatch(k)];
    }
    if cycle.flash != matrix.flashRow.sha256 {
      errors := errors + [FlashDigestMismatch(k)];
    }
    if !cycleOk(cycle) {
      errors := errors + [CycleRejected(k)];
    }
  }

  /** A cycle without a known type or ordinal is not listed. */
  lemma NotListed(cycles: seq<Cycle>, k: nat)
    requires k < |cycles| && !(cycles[k].kind.Some? && cycles[k].ordinal.Some?)
    ensures Types(cycles[..k + 1]) == Types(cycles[..k])
    ensures Ordinals(cycles[..k + 1], Software) == Ordinals(cycles[..k], Software)
    ensures Ordinals(cycles[..k + 1], Cold) == Ordinals(cycles[..k], Cold)
  {
    assert cycles[..k + 1][..k] == cycles[..k];
  }

  /** A typed cycle is listed with its type and its ordinal. */
  method RecordType(
    cycle: Cycle, types: seq<CycleType>, software: seq<int>, cold: seq<int>, ghost cycles: seq<Cycle>, ghost k: nat)
    returns (newTypes: seq<CycleType>, newSoftware: seq<int>, newCold: seq<int>)
    requires k < |cycles| && cycle == cycles[k]
    requires types == Types(cycles[..k])
    requires software == Ordinals(cycles[..k], Software) && cold == Ordinals(cycles[..k], Cold)
    ensures newTypes == Types(cycles[..k + 1])
    ensures newSoftware == Ordinals(cycles[..k + 1], Software) && newCold == Ordinals(cycles[..k + 1], Cold)
  {
    assert cycles[..k + 1][..k] == cycles[..k];
    newTypes, newSoftware, newCold := types, software, cold;
    if cycle.kind.Some? && cycle.ordinal.Some? {
      newTypes := types + [cycle.kind.value];
      if cycle.kind.value.Software? {
        newSoftware := software + [cycle.ordinal.value];
      } else {
        newCold := cold + [cycle.ordinal.value];
      }
    }
  }

  /** The loop over the cycle receipts. */
  method WalkRows(hash: Hash, files: Files, matrix: Matrix, cycleOk: Cycle -> bool)
    returns (tail: Digest, types: seq<CycleType>, software: seq<int>, cold: seq<int>, errors: seq<MatrixError>)
    ensures var rows, cycles := matrix.cycleRows, CyclesOf(files, matrix.cycleRows);
            && (errors == [] <==> RowsOk(hash, files, matrix, cycleOk, |rows|))
            && types == Types(cycles) && software == Ordinals(cycles, Software) && cold == Ordinals(cycles, Cold)
            && (errors == [] ==> tail == PreviousDigest(matrix.flashRow.sha256, rows, |rows|))
  {
    var rows := matrix.cycleRows;
    ghost var cycles := CyclesOf(files, rows);
    var seenPaths: set<string>, seenDigests: set<Digest>, seenIds: set<string> := {}, {}, {};
    tail, types, software, cold, errors := matrix.flashRow.sha256, [], [], [], [];
    for k := 0 to |rows|
      invariant errors == [] <==> RowsOk(hash, files, matrix, cycleOk, k)
      invariant types == Types(cycles[..k])
      invariant software == Ordinals(cycles[..k], Software) && cold == Ordinals(cycles[..k], Cold)
      invariant errors == [] ==> tail == PreviousDigest(matrix.flashRow.sha256, rows, k)
      invariant errors == [] ==> FreshRow(seenPaths, seenDigests, seenIds, rows, cycles, k)
    {
      var row := rows[k];
      var rowErrors := CheckRow(hash, files, matrix, cycleOk, k, seenPaths, seenDigests, seenIds, tail);
      ghost var paths, digests, ids := seenPaths, seenDigests, seenIds;
      seenPaths, seenDigests := seenPaths + {row.path}, seenDigests + {row.sha256};
      if row.path in files && files[row.path].CycleReceipt? {
        var cycle := files[row.path].cycle;
        seenIds := seenIds + {cycle.id};
        tail := row.sha256;
        types, software, cold := RecordType(cycle, types, software, cold, cycles, k);
      } else {
        NotListed(cycles, k);
      }
      if errors == [] && rowErrors == [] {
        SeenGrows(paths, digests, ids, rows, cycles, k);
      }
      errors := errors + rowErrors;
    }
    assert cycles[..|rows|] == cycles;
  }

  lemma PrefixGrows<T>(s: seq<T>, k: nat)
    requires k < |s|
    ensures Members(s[..k + 1]) == Members(s[..k]) + {s[k]}
  {
    assert s[..k + 1] == s[..k] + [s[k]];
  }

  lemma SeenGrows(
    seenPaths: set<string>, seenDigests: set<Digest>, seenIds: set<string>,
    rows: seq<FileRow>, cycles: seq<Cycle>, k: nat)
    requires k < |rows| && FreshRow(seenPaths, seenDigests, seenIds, rows, cycles, k)
    ensures FreshRow(
              seenPaths + {rows[k].path}, seenDigests + {rows[k].sha256}, seenIds + {cycles[k].id}, rows, cycles, k + 1)
  {
    PrefixGrows(Paths(rows), k);
    PrefixGrows(Digests(rows), k);
    PrefixGrows(Ids(cycles), k);
  }

  predicate AllPass(cycles: seq<Cycle>, cycleOk: Cycle -> bool) {
    forall i | 0 <= i < |cycles| :: cycleOk(cycles[i])
  }

  method ValidateChain(
    hash: Hash, files: Files, matrix: Matrix, cycleOk: Cycle -> bool, softwareCount: nat, coldCount: nat)
    returns (errors: seq<MatrixError>)
    ensures errors == [] <==>
            && ChainChecks(hash, files, matrix, softwareCount, coldCount)
            && AllPass(CyclesOf(files, matrix.cycleRows), cycleOk)
  {
    if |matrix.cycleRows| != softwareCount + coldCount {
      return [WrongCycleCount];
    }
    var tail, types, software, cold, rowErrors := WalkRows(hash, files, matrix, cycleOk);
    AllRowsOk(hash, files, matrix, cycleOk);
    errors := rowErrors;
    if types != Repeat(Software, softwareCount) + Repeat(Cold, coldCount) {
      errors := errors + [TypeOrderInvalid];
    }
    if software != UpTo(softwareCount) {
      errors := errors + [SoftwareOrdinalsInvalid];
    }
    if cold != UpTo(coldCount) {
      errors := errors + [ColdOrdinalsInvalid];
    }
    if matrix.tail != tail {
      errors := errors + [TailMismatch];
    }
  }

  method ValidateCycles(
    hash: Hash, files: Files, matrix: Matrix, baseline: State, reader: StateReader, softwareCount: nat, coldCount: nat)
    returns (errors: seq<MatrixError>)
    ensures errors == [] <==>
            && ChainChecks(hash, files, matrix, softwareCount, coldCount)
            && CyclesAccepted(baseline, CyclesOf(files, matrix.cycleRows), reader)
  {
    var cycleOk := (cycle: Cycle) => CycleAccepted(baseline, cycle, reader);
    errors := ValidateChain(hash, files, matrix, cycleOk, softwareCount, coldCount);
  }

  /** `_validate_core_reboot_persistence_report`: head, loop, tail and declaration. Without a usable
      head there is no baseline to go on from, and the list of errors is not empty. */
  method ValidateMatrix(
    hash: Hash, files: Files, matrix: Matrix, reader: StateReader := DurableReader(DURABLE_FIELDS),
    softwareCount: nat := SOFTWARE_CYCLE_COUNT, coldCount: nat := COLD_CYCLE_COUNT)
    returns (errors: seq<MatrixError>)
    ensures errors == [] <==> MatrixAccepted(hash, files, matrix, reader, softwareCount, coldCount)
  {
    if !HeadAccepted(hash, files, matrix, reader) {
      return [HeadInvalid];
    }
    errors := ValidateCycles(hash, files, matrix, Baseline(files, matrix, reader), reader, softwareCount, coldCount);
    if !matrix.declaredUnique {
      errors := errors + [UniquenessNotDeclared];
    }
  }
}
