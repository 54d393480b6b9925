/** The seed receipt's witness-only proof of full stores, and what it pins for every later capture
    (scripts/core_reboot_persistence_d1l.py). */
module SeedProof {
  import opened Json
  import opened StorePages
  import opened RetainedState

  /** What the raw witness result says of one store: whether its mode is
      "existing_full_preserved", its capacity, its counters before and after (the first ones are
      the counts that must equal the capacity) and the witness row's `seq`. */
  datatype StoreProof = StoreProof(
    fullMode: bool, capacity: Value, before: seq<Value>, after: seq<Value>, witnessSeq: Value)

  datatype Proof = Proof(publicStore: StoreProof, directStore: StoreProof, contactStore: StoreProof)

  function PublicFacts(p: Projection): seq<Value> {
    [p.retainedStoreCount, p.count, p.totalWritten, p.droppedOldest, p.contentRevision]
  }

  function DirectFacts(p: Projection): seq<Value> {
    [p.count, p.totalWritten, p.droppedOldest, p.contentRevision]
  }

  function ContactFacts(c: ContactProjection): seq<Value> {
    [c.count, c.totalWritten, c.droppedOldest, c.persistenceRevision]
  }

  function WithSeq(rows: seq<Dict>, seqValue: Value): seq<Dict> {
    Filter(rows, row => PyEq(Get(row, "seq"), seqValue))
  }

  predicate AllMatch(a: seq<Value>, b: seq<Value>) {
    |a| == |b| && forall i | 0 <= i < |a| :: PyEq(a[i], b[i])
  }

  /** One store is proven full and untouched: `counts` of its leading counters are the capacity. */
  predicate StoreProven(proof: StoreProof, facts: seq<Value>, capacity: Value, counts: nat, rows: seq<Dict>)
    requires counts <= |facts|
  {
    && proof.fullMode
    && Counter(proof.capacity)
    && PyEq(proof.capacity, capacity)
    && AllMatch(proof.before, facts) && AllMatch(proof.after, proof.before)
    && (forall i | 0 <= i < |proof.before| :: Counter(proof.before[i]))
    && (forall i | 0 <= i < |proof.after| :: Counter(proof.after[i]))
    && (forall i | 0 <= i < counts :: proof.before[i] == proof.capacity)
    && proof.capacity == Int(|rows|)
    && proof.witnessSeq.Int? && proof.witnessSeq.i > 0
    && |WithSeq(rows, proof.witnessSeq)| == 1
  }

  predicate ProofAccepted(proof: Proof, initial: State) {
    var p, d, c := initial.publicMessages, initial.directMessages, initial.contacts;
    && StoreProven(proof.publicStore, PublicFacts(p), p.capacity, 2, p.entries)
    && PyEq(p.retainedStoreCount, p.count)
    && StoreProven(proof.directStore, DirectFacts(d), d.capacity, 1, d.entries)
    && StoreProven(proof.contactStore, ContactFacts(c), c.capacity, 1, c.entries)
  }

  /** The rows the proof selects, with the settings marker written after it. */
  function ProvenWitness(proof: Proof, initial: State, nodeName: string): Witness
    requires ProofAccepted(proof, initial)
  {
    Witness(nodeName,
            WithSeq(initial.publicMessages.entries, proof.publicStore.witnessSeq)[0],
            WithSeq(initial.directMessages.entries, proof.directStore.witnessSeq)[0],
            WithSeq(initial.contacts.entries, proof.contactStore.witnessSeq)[0])
  }

  predicate SameRows(a: seq<Dict>, b: seq<Dict>) {
    |a| == |b| && forall i | 0 <= i < |a| :: ItemEq(Obj(a[i]), Obj(b[i]))
  }

  predicate SameStore(a: Projection, b: Projection) {
    && ItemEq(a.count, b.count) && ItemEq(a.capacity, b.capacity)
    && ItemEq(a.retainedStoreCount, b.retainedStoreCount)
    && ItemEq(a.totalWritten, b.totalWritten) && ItemEq(a.droppedOldest, b.droppedOldest)
    && ItemEq(a.retainedEpoch, b.retainedEpoch) && ItemEq(a.contentRevision, b.contentRevision)
    && SameRows(a.entries, b.entries)
  }

  predicate SameContacts(a: ContactProjection, b: ContactProjection) {
    && ItemEq(a.count, b.count) && ItemEq(a.capacity, b.capacity)
    && ItemEq(a.totalWritten, b.totalWritten) && ItemEq(a.droppedOldest, b.droppedOldest)
    && ItemEq(a.persistenceRevision, b.persistenceRevision)
    && SameRows(a.entries, b.entries)
  }

  /** `seed_store_transition_preserved`: the final stores are the initial ones and carry the
      counters the raw proof reported. */
  predicate TransitionPreserved(proof: Proof, initial: State, final: State) {
    && SameStore(final.publicMessages, initial.publicMessages)
    && SameStore(final.directMessages, initial.directMessages)
    && SameContacts(final.contacts, initial.contacts)
    && AllMatch(PublicFacts(final.publicMessages), proof.publicStore.after)
    && AllMatch(DirectFacts(final.directMessages), proof.directStore.after)
    && AllMatch(ContactFacts(final.contacts), proof.contactStore.after)
    && PyEq(final.publicMessages.capacity, proof.publicStore.capacity)
    && PyEq(final.directMessages.capacity, proof.directStore.capacity)
    && PyEq(final.contacts.capacity, proof.contactStore.capacity)
  }

  /** A seed receipt; `rest` is everything in it that no check here reads. */
  datatype Seed = Seed(initial: Capture, proof: Proof, nodeName: string, final: Capture, rest: Dict)

  /** The state checks of `validate_seed_receipt`. */
  predicate SeedAccepted(seed: Seed, reader: StateReader) {
    && reader.accepts(seed.initial)
    && reader.accepts(seed.final)
    && var initial, final := reader.project(seed.initial), reader.project(seed.final);
       && initial.Some? && final.Some?
       && ProofAccepted(seed.proof, initial.value)
       && WitnessCheck(final.value, ProvenWitness(seed.proof, initial.value, seed.nodeName))
       && TransitionPreserved(seed.proof, initial.value, final.value)
  }

  /** The three stores hold exactly as many rows as their capacity. */
  predicate StoresFull(s: State) {
    && PyEq(s.publicMessages.capacity, Int(|s.publicMessages.entries|))
    && PyEq(s.directMessages.capacity, Int(|s.directMessages.entries|))
    && PyEq(s.contacts.capacity, Int(|s.contacts.entries|))
  }

  lemma SeedStateFull(proof: Proof, initial: State, final: State)
    requires ProofAccepted(proof, initial) && TransitionPreserved(proof, initial, final)
    ensures StoresFull(final)
  {
  }

  /** The baseline every later check compares with: well formed, all stores full, and each of the
      three witness rows present exactly once. */
  lemma SeedBaseline(seed: Seed, reader: StateReader)
    requires Sound(reader) && SeedAccepted(seed, reader)
    ensures var baseline := reader.project(seed.final).value;
            var initial := reader.project(seed.initial).value;
            && WellFormed(baseline) && StoresFull(baseline)
            && WitnessCheck(baseline, ProvenWitness(seed.proof, initial, seed.nodeName))
  {
    assert reader.accepts(seed.final);
    SeedStateFull(seed.proof, reader.project(seed.initial).value, reader.project(seed.final).value);
  }

  /** Two equal capacities, one of them known to be an integer. */
  lemma SameCapacity(a: Value, b: Value, n: int)
    requires PyEq(a, Int(n)) && PyEq(a, b) && b.Int?
    ensures b.i == n
  {
    assert PyEq(a, Int(b.i));
    EqualsOneInteger(a, n, b.i);
  }

  /** Full stores are pinned: a later capture that preserves a full baseline, with the same
      capacities, has exactly the baseline's Public rows and contact rows. */
  lemma FullStoresPinned(baseline: State, later: State)
    requires WellFormed(baseline) && StoresFull(baseline) && WellFormed(later)
    requires StatePreserved(baseline, later)
    requires PyEq(baseline.publicMessages.capacity, later.publicMessages.capacity)
    requires PyEq(baseline.contacts.capacity, later.contacts.capacity)
    ensures later.publicMessages.entries == baseline.publicMessages.entries
    ensures later.contacts.entries == baseline.contacts.entries
  {
    SameCapacity(baseline.publicMessages.capacity, later.publicMessages.capacity, |baseline.publicMessages.entries|);
    SameCapacity(baseline.contacts.capacity, later.contacts.capacity, |baseline.contacts.entries|);
    FullRowsPinned(baseline.publicMessages.entries, later.publicMessages.entries);
    FullRowsPinned(baseline.contacts.entries, later.contacts.entries);
  }

  /** No check bounds a direct-message count by its capacity; the direct messages of a full
      baseline are pinned exactly when the later count respects it. */
  lemma DirectMessagesPinnedIff(baseline: State, later: State)
    requires WellFormed(baseline) && StoresFull(baseline) && WellFormed(later)
    requires StatePreserved(baseline, later)
    ensures later.directMessages.entries == baseline.directMessages.entries
       <==> PyNotAbove(later.directMessages.count, baseline.directMessages.capacity)
  {
    var before, after := baseline.directMessages, later.directMessages;
    FullRowsPinned(before.entries, after.entries);
    ItemEqMeaning(before.capacity, Int(|before.entries|));
    assert NumberOf(before.capacity) == |before.entries| as real;
  }

  /** `count <= capacity` on two numbers. */
  predicate PyNotAbove(count: Value, capacity: Value) {
    IsNumber(count) && IsNumber(capacity) && NumberOf(count) <= NumberOf(capacity)
  }
}
