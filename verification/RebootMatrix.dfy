/** The reboot matrix: cycle receipts chained by digest, the loop that builds the chain, the loop
    that validates it, and what acceptance proves (scripts/core_reboot_persistence_d1l.py). */
module RebootMatrix {
  import opened Common
  import opened Json
  import opened RetainedState
  import opened SeedProof

  const SOFTWARE_CYCLE_COUNT: nat := 5
  const COLD_CYCLE_COUNT: nat := 3

  type Digest = string

  datatype CycleType = Software | Cold {
    function Name(): string {
      if Software? then "software" else "cold"
    }
  }

  datatype Key = Key(kind: CycleType, ordinal: nat)

  /** The order of the cycles: `software` software ones, then `cold` cold ones, each from 1. */
  function KeyAt(i: nat, software: nat): Key {
    if i < software then Key(Software, i + 1) else Key(Cold, i - software + 1)
  }

  /** What a cycle observed: its two captures, and whether every other check on them (transition,
      action, identity binding, receipt header) held. */
  datatype Observation = Observation(pre: Capture, post: Capture, othersExact: bool)

  /** A cycle receipt. `kind` and `ordinal` are absent when they are not a known type and an
      integer; `rest` is everything else it holds, time stamps among it. */
  datatype Cycle = Cycle(
    previous: Digest, seed: Digest, flash: Digest, id: string,
    kind: Option<CycleType>, ordinal: Option<int>, observed: Observation, rest: Dict)

  /** A file of the evidence tree, with its whole content. No field of a flash receipt is read here. */
  datatype Document = SeedReceipt(seed: Seed) | FlashReceipt(flash: Dict) | CycleReceipt(cycle: Cycle)

  type Hash = Document -> Digest

  datatype FileRow = FileRow(path: string, sha256: Digest)

  type Files = map<string, Document>

  /** A matrix report. `headExact` stands for the checks of its header, of the live identity and of
      the closing flash receipt. */
  datatype Matrix = Matrix(
    headExact: bool, seedRow: FileRow, flashRow: FileRow, live: Capture, cycleRows: seq<FileRow>, tail: Digest,
    declaredUnique: bool)

  predicate RowValid(hash: Hash, files: Files, row: FileRow) {
    row.path in files && hash(files[row.path]) == row.sha256
  }

  // ----- a chain of documents, of any length

  datatype Chain = Chain(seed: Document, flash: Document, cycles: seq<Cycle>)

  function Tail(hash: Hash, flash: Document, cycles: seq<Cycle>): Digest {
    if cycles == [] then hash(flash) else hash(CycleReceipt(cycles[|cycles| - 1]))
  }

  function Receipts(cycles: seq<Cycle>): set<Document> {
    set cycle | cycle in cycles :: CycleReceipt(cycle)
  }

  function Documents(chain: Chain): set<Document> {
    {chain.seed, chain.flash} + Receipts(chain.cycles)
  }

  /** Every receipt names its predecessor, the seed and the closing flash receipt by digest. */
  predicate Linked(hash: Hash, chain: Chain) {
    && chain.seed.SeedReceipt? && chain.flash.FlashReceipt?
    && forall i | 0 <= i < |chain.cycles| ::
         && chain.cycles[i].previous == Tail(hash, chain.flash, chain.cycles[..i])
         && chain.cycles[i].seed == hash(chain.seed)
         && chain.cycles[i].flash == hash(chain.flash)
  }

  /** The backward links alone. */
  ghost predicate Chained(hash: Hash, flash: Document, cycles: seq<Cycle>) {
    cycles == []
    || (&& cycles[|cycles| - 1].previous == Tail(hash, flash, cycles[..|cycles| - 1])
        && Chained(hash, flash, cycles[..|cycles| - 1]))
  }

  lemma {:induction false} LinkedIsChained(hash: Hash, flash: Document, cycles: seq<Cycle>, n: nat)
    requires n <= |cycles| && forall i | 0 <= i < |cycles| :: cycles[i].previous == Tail(hash, flash, cycles[..i])
    ensures Chained(hash, flash, cycles[..n])
  {
    if n > 0 {
      LinkedIsChained(hash, flash, cycles, n - 1);
      assert cycles[..n][..n - 1] == cycles[..n - 1];
    }
  }

  lemma {:induction false} SameTailSameCycles(
    hash: Hash, flashA: Document, a: seq<Cycle>, flashB: Document, b: seq<Cycle>)
    requires NoCollision(hash, {flashA} + Receipts(a), {flashB} + Receipts(b))
    requires flashA.FlashReceipt? && flashB.FlashReceipt?
    requires Chained(hash, flashA, a) && Chained(hash, flashB, b)
    requires Tail(hash, flashA, a) == Tail(hash, flashB, b)
    ensures a == b && flashA == flashB
  {
    if a != [] && b != [] {
      var m, n := |a| - 1, |b| - 1;
      assert CycleReceipt(a[m]) in Receipts(a) && CycleReceipt(b[n]) in Receipts(b);
      assert CycleReceipt(a[m]) == CycleReceipt(b[n]);
      assert Receipts(a[..m]) <= Receipts(a) && Receipts(b[..n]) <= Receipts(b);
      SameTailSameCycles(hash, flashA, a[..m], flashB, b[..n]);
      assert a == a[..m] + [a[m]] && b == b[..n] + [b[n]];
    }
  }

  /** The tail digest of a chain pins the whole history: cycles, seed and flash receipt. The two
      chains need not be assumed equally long. */
  lemma TailPinsHistory(hash: Hash, a: Chain, b: Chain)
    requires NoCollision(hash, Documents(a), Documents(b)) && Linked(hash, a) && Linked(hash, b)
    requires Tail(hash, a.flash, a.cycles) == Tail(hash, b.flash, b.cycles)
    requires a.cycles != []
    ensures a == b
  {
    LinkedIsChained(hash, a.flash, a.cycles, |a.cycles|);
    LinkedIsChained(hash, b.flash, b.cycles, |b.cycles|);
    assert a.cycles[..|a.cycles|] == a.cycles && b.cycles[..|b.cycles|] == b.cycles;
    SameTailSameCycles(hash, a.flash, a.cycles, b.flash, b.cycles);
    assert a.cycles[0].seed == hash(a.seed) && b.cycles[0].seed == hash(b.seed);
  }

  // ----- the validator's loop

  datatype MatrixError =
    | HeadInvalid | WrongCycleCount
    | FileRowInvalid(index: nat) | DuplicatePath | DuplicateDigest | DuplicateCycleId
    | ChainMismatch(index: nat) | SeedDigestMismatch(index: nat) | FlashDigestMismatch(index: nat)
    | CycleRejected(index: nat) | TypeOrderInvalid | SoftwareOrdinalsInvalid | ColdOrdinalsInvalid
    | TailMismatch | UniquenessNotDeclared

  /** The state checks of `recompute_cycle`, with its other checks taken as one verdict. */
  predicate CycleAccepted(baseline: State, cycle: Cycle, reader: StateReader) {
    ObservationAccepted(baseline, cycle.observed, reader)
  }

  predicate ObservationAccepted(baseline: State, observed: Observation, reader: StateReader) {
    && observed.othersExact
    && reader.accepts(observed.pre)
    && reader.accepts(observed.post)
    && var pre, post := reader.project(observed.pre), reader.project(observed.post);
       && pre.Some? && post.Some?
       && StatePreserved(baseline, pre.value)
       && StatePreserved(pre.value, post.value)
       && StatePreserved(baseline, post.value)
  }

  /** The third comparison of a cycle follows from the first two. */
  lemma ThirdComparisonRedundant(baseline: State, pre: State, post: State)
    requires StatePreserved(baseline, pre) && StatePreserved(pre, post)
    ensures StatePreserved(baseline, post)
  {
    PreservedTransitive(baseline, pre, post);
  }

  function Types(cycles: seq<Cycle>): seq<CycleType> {
    if cycles == [] then []
    else
      var last := cycles[|cycles| - 1];
      Types(cycles[..|cycles| - 1]) + if last.kind.Some? && last.ordinal.Some? then [last.kind.value] else []
  }

  function Ordinals(cycles: seq<Cycle>, kind: CycleType): seq<int> {
    if cycles == [] then []
    else
      var last := cycles[|cycles| - 1];
      Ordinals(cycles[..|cycles| - 1], kind)
      + if last.kind == Some(kind) && last.ordinal.Some? then [last.ordinal.value] else []
  }

  function UpTo(n: nat): seq<int> {
    seq(n, i => i + 1)
  }

  function Repeat<T>(x: T, n: nat): seq<T> {
    seq(n, _ => x)
  }

  predicate RowsValid(hash: Hash, files: Files, rows: seq<FileRow>) {
    forall i | 0 <= i < |rows| :: RowValid(hash, files, rows[i]) && files[rows[i].path].CycleReceipt?
  }

  function CyclesOf(files: Files, rows: seq<FileRow>): seq<Cycle> {
    seq(|rows|, i requires 0 <= i < |rows| =>
      if rows[i].path in files && files[rows[i].path].CycleReceipt? then files[rows[i].path].cycle
      else NoCycle())
  }

  /** Stands for a row whose file is no cycle receipt; no accepted matrix has one. */
  function NoCycle(): Cycle {
    var nothing := Capture(false, None, [], [], None, None);
    Cycle("", "", "", "", None, None, Observation(nothing, nothing, false), map[])
  }

  function PreviousDigest(flash: Digest, rows: seq<FileRow>, i: nat): Digest
    requires i <= |rows|
  {
    if i == 0 then flash else rows[i - 1].sha256
  }

  predicate LinksHold(seed: Digest, flash: Digest, rows: seq<FileRow>, cycles: seq<Cycle>)
    requires |cycles| == |rows|
  {
    forall i | 0 <= i < |rows| ::
      && cycles[i].previous == PreviousDigest(flash, rows, i)
      && cycles[i].seed == seed
      && cycles[i].flash == flash
  }

  function Paths(rows: seq<FileRow>): seq<string> {
    seq(|rows|, i requires 0 <= i < |rows| => rows[i].path)
  }

  function Digests(rows: seq<FileRow>): seq<Digest> {
    seq(|rows|, i requires 0 <= i < |rows| => rows[i].sha256)
  }

  function Ids(cycles: seq<Cycle>): seq<string> {
    seq(|cycles|, i requires 0 <= i < |cycles| => cycles[i].id)
  }

  /** The checks of the loop that concern the chain itself. */
  predicate ChainChecks(hash: Hash, files: Files, matrix: Matrix, software: nat, cold: nat) {
    var rows, cycles := matrix.cycleRows, CyclesOf(files, matrix.cycleRows);
    && |rows| == software + cold
    && RowsValid(hash, files, rows)
    && LinksHold(matrix.seedRow.sha256, matrix.flashRow.sha256, rows, cycles)
    && Distinct(Paths(rows)) && Distinct(Digests(rows)) && Distinct(Ids(cycles))
    && Types(cycles) == Repeat(Software, software) + Repeat(Cold, cold)
    && Ordinals(cycles, Software) == UpTo(software)
    && Ordinals(cycles, Cold) == UpTo(cold)
    && matrix.tail == PreviousDigest(matrix.flashRow.sha256, rows, |rows|)
  }

  /** The seed, flash and live-state checks made before the loop; they fix the baseline. */
  predicate HeadAccepted(hash: Hash, files: Files, matrix: Matrix, reader: StateReader) {
    && matrix.headExact
    && RowValid(hash, files, matrix.seedRow) && files[matrix.seedRow.path].SeedReceipt?
    && SeedAccepted(files[matrix.seedRow.path].seed, reader)
    && RowValid(hash, files, matrix.flashRow) && files[matrix.flashRow.path].FlashReceipt?
    && reader.accepts(matrix.live)
    && reader.project(matrix.live).Some?
    && reader.project(files[matrix.seedRow.path].seed.final).Some?
    && StatePreserved(Baseline(files, matrix, reader), reader.project(matrix.live).value)
  }

  function Baseline(files: Files, matrix: Matrix, reader: StateReader): State
    requires matrix.seedRow.path in files && files[matrix.seedRow.path].SeedReceipt?
    requires reader.project(files[matrix.seedRow.path].seed.final).Some?
  {
    reader.project(files[matrix.seedRow.path].seed.final).value
  }

  predicate CyclesAccepted(baseline: State, cycles: seq<Cycle>, reader: StateReader) {
    forall i | 0 <= i < |cycles| :: CycleAccepted(baseline, cycles[i], reader)
  }

  predicate MatrixAccepted(
    hash: Hash, files: Files, matrix: Matrix, reader: StateReader, software: nat, cold: nat)
  {
    && HeadAccepted(hash, files, matrix, reader)
    && ChainChecks(hash, files, matrix, software, cold)
    && CyclesAccepted(Baseline(files, matrix, reader), CyclesOf(files, matrix.cycleRows), reader)
    && matrix.declaredUnique
  }

  // ----- what acceptance proves

  /** The documents an accepted matrix refers to. */
  function HistoryOf(files: Files, matrix: Matrix): Chain
    requires matrix.seedRow.path in files && matrix.flashRow.path in files
  {
    Chain(files[matrix.seedRow.path], files[matrix.flashRow.path], CyclesOf(files, matrix.cycleRows))
  }

  lemma PreviousIsTail(hash: Hash, files: Files, rows: seq<FileRow>, flash: Document, i: nat)
    requires i <= |rows| && RowsValid(hash, files, rows)
    ensures PreviousDigest(hash(flash), rows, i) == Tail(hash, flash, CyclesOf(files, rows)[..i])
  {
    if i > 0 {
      var cycles := CyclesOf(files, rows);
      assert RowValid(hash, files, rows[i - 1]);
      assert files[rows[i - 1].path] == CycleReceipt(cycles[i - 1]);
      assert cycles[..i][i - 1] == cycles[i - 1];
    }
  }

  lemma ValidRowsAreLinked(hash: Hash, files: Files, seed: Document, flash: Document, rows: seq<FileRow>)
    requires seed.SeedReceipt? && flash.FlashReceipt?
    requires RowsValid(hash, files, rows)
    requires LinksHold(hash(seed), hash(flash), rows, CyclesOf(files, rows))
    ensures Linked(hash, Chain(seed, flash, CyclesOf(files, rows)))
    ensures PreviousDigest(hash(flash), rows, |rows|) == Tail(hash, flash, CyclesOf(files, rows))
  {
    var cycles := CyclesOf(files, rows);
    forall i | 0 <= i < |cycles| ensures cycles[i].previous == Tail(hash, flash, cycles[..i]) {
      PreviousIsTail(hash, files, rows, flash, i);
    }
    PreviousIsTail(hash, files, rows, flash, |rows|);
    assert cycles[..|rows|] == cycles;
  }

  lemma AcceptedIsLinked(hash: Hash, files: Files, matrix: Matrix, reader: StateReader, software: nat, cold: nat)
    requires HeadAccepted(hash, files, matrix, reader) && ChainChecks(hash, files, matrix, software, cold)
    ensures Linked(hash, HistoryOf(files, matrix))
    ensures matrix.tail == Tail(hash, files[matrix.flashRow.path], CyclesOf(files, matrix.cycleRows))
  {
    ValidRowsAreLinked(hash, files, files[matrix.seedRow.path], files[matrix.flashRow.path], matrix.cycleRows);
  }

  /** Two accepted matrices with the same chain tail rest on the same documents. */
  lemma SameTailSameHistory(
    hash: Hash, filesA: Files, a: Matrix, filesB: Files, b: Matrix, reader: StateReader, software: nat, cold: nat)
    requires software + cold > 0
    requires MatrixAccepted(hash, filesA, a, reader, software, cold)
    requires MatrixAccepted(hash, filesB, b, reader, software, cold)
    requires NoCollision(hash, Documents(HistoryOf(filesA, a)), Documents(HistoryOf(filesB, b)))
    requires a.tail == b.tail
    ensures HistoryOf(filesA, a) == HistoryOf(filesB, b)
  {
    AcceptedIsLinked(hash, filesA, a, reader, software, cold);
    AcceptedIsLinked(hash, filesB, b, reader, software, cold);
    TailPinsHistory(hash, HistoryOf(filesA, a), HistoryOf(filesB, b));
  }

  /** The witness descriptor of the seed behind a matrix. */
  function SeedWitness(seed: Seed, reader: StateReader): Witness
    requires SeedAccepted(seed, reader)
  {
    ProvenWitness(seed.proof, reader.project(seed.initial).value, seed.nodeName)
  }

  /** Nothing the baseline holds is missing from a state, and each witness is there once. */
  ghost predicate Keeps(baseline: State, proof: Witness, capture: Capture, reader: StateReader) {
    && reader.project(capture).Some?
    && var later := reader.project(capture).value;
       WellFormed(later) && StatePreserved(baseline, later) && WitnessCheck(later, proof)
  }

  lemma CaptureKeeps(baseline: State, proof: Witness, capture: Capture, reader: StateReader)
    requires Sound(reader)
    requires WellFormed(baseline) && WitnessCheck(baseline, proof)
    requires reader.accepts(capture) && StatePreserved(baseline, reader.project(capture).value)
    ensures Keeps(baseline, proof, capture, reader)
  {
    WitnessSurvives(baseline, reader.project(capture).value, proof);
  }

  lemma CycleKeeps(baseline: State, proof: Witness, cycle: Cycle, reader: StateReader)
    requires Sound(reader)
    requires WellFormed(baseline) && WitnessCheck(baseline, proof)
    requires CycleAccepted(baseline, cycle, reader)
    ensures Keeps(baseline, proof, cycle.observed.pre, reader)
    ensures Keeps(baseline, proof, cycle.observed.post, reader)
  {
    CaptureKeeps(baseline, proof, cycle.observed.pre, reader);
    CaptureKeeps(baseline, proof, cycle.observed.post, reader);
  }

  /** Before and after every cycle of an accepted matrix, every row retained in the seed is there
      and each of the three witnesses is there exactly once. */
  lemma WitnessesSurviveMatrix(
    hash: Hash, files: Files, matrix: Matrix, reader: StateReader, software: nat, cold: nat, index: nat)
    requires Sound(reader)
    requires MatrixAccepted(hash, files, matrix, reader, software, cold)
    requires index < |matrix.cycleRows|
    ensures var observed := CyclesOf(files, matrix.cycleRows)[index].observed;
            var baseline := Baseline(files, matrix, reader);
            var proof := SeedWitness(files[matrix.seedRow.path].seed, reader);
            Keeps(baseline, proof, observed.pre, reader) && Keeps(baseline, proof, observed.post, reader)
  {
    var seed := files[matrix.seedRow.path].seed;
    SeedBaseline(seed, reader);
    var cycle := CyclesOf(files, matrix.cycleRows)[index];
    CycleKeeps(Baseline(files, matrix, reader), SeedWitness(seed, reader), cycle, reader);
  }

  predicate SameCapacities(a: State, b: State) {
    && PyEq(a.publicMessages.capacity, b.publicMessages.capacity)
    && PyEq(a.contacts.capacity, b.contacts.capacity)
  }

  /** The capture was taken before or after a cycle of the matrix. */
  predicate ObservedIn(files: Files, matrix: Matrix, index: nat, capture: Capture) {
    && index < |matrix.cycleRows|
    && var observed := CyclesOf(files, matrix.cycleRows)[index].observed;
       capture == observed.pre || capture == observed.post
  }

  lemma ObservedKeeps(
    hash: Hash, files: Files, matrix: Matrix, reader: StateReader, software: nat, cold: nat, index: nat,
    capture: Capture)
    requires Sound(reader)
    requires MatrixAccepted(hash, files, matrix, reader, software, cold)
    requires ObservedIn(files, matrix, index, capture)
    ensures Keeps(
              Baseline(files, matrix, reader), SeedWitness(files[matrix.seedRow.path].seed, reader), capture, reader)
  {
    WitnessesSurviveMatrix(hash, files, matrix, reader, software, cold, index);
  }

  /** As long as a device keeps its capacities, every capture of an accepted matrix shows exactly
      the seed's Public rows and contact rows. */
  lemma MatrixPinsFullStores(
    hash: Hash, files: Files, matrix: Matrix, reader: StateReader, software: nat, cold: nat, index: nat,
    capture: Capture, later: State)
    requires Sound(reader)
    requires MatrixAccepted(hash, files, matrix, reader, software, cold)
    requires ObservedIn(files, matrix, index, capture) && reader.project(capture) == Some(later)
    requires SameCapacities(Baseline(files, matrix, reader), later)
    ensures later.publicMessages.entries == Baseline(files, matrix, reader).publicMessages.entries
    ensures later.contacts.entries == Baseline(files, matrix, reader).contacts.entries
  {
    SeedBaseline(files[matrix.seedRow.path].seed, reader);
    ObservedKeeps(hash, files, matrix, reader, software, cold, index, capture);
    FullStoresPinned(Baseline(files, matrix, reader), later);
  }
}
