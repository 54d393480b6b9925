/** The canonical retained state, the "preserved" relation between two states, and what the seed's
    witness proof pins for every later capture (scripts/core_reboot_persistence_d1l.py). */
module RetainedState {
  import opened Common
  import opened Json
  import opened Sorting
  import opened StorePages
  import opened StoreCapture

  // ----- contacts

  /** The keys read from the decoded `contacts` response. */
  datatype ContactResult = ContactResult(
    ok: bool, persisted: Value, entries: Value, count: Value, capacity: Value,
    totalWritten: Value, droppedOldest: Value, persistenceRevision: Value,
    persistenceDirty: Value, persistenceLastError: Value)

  datatype ContactProjection = ContactProjection(
    count: Value, capacity: Value, totalWritten: Value, droppedOldest: Value,
    persistenceRevision: Value, entries: seq<Dict>)

  datatype ContactError =
    | CommandOrPersistenceFailed | EntriesUnusable | SnapshotTruncated | DurableFieldMissing(entry: nat)
    | ContactSequencesInvalid | CounterInvalid | PersistenceStateNotClean

  datatype ContactOutcome = NoContacts | ContactsProjected(projection: ContactProjection) | ContactSortRaised

  const DURABLE_FIELDS: set<string> := {
    "seq", "fingerprint", "public_key", "alias", "heard_name", "type", "verification_source",
    "verified_at_ms", "signed_advert_timestamp", "canonical", "can_dm", "favorite", "muted"}

  predicate HasDurableFields(entry: Dict, durable: set<string>) {
    durable <= entry.Keys
  }

  function DurableRow(entry: Dict, durable: set<string>): Dict {
    map key | key in durable && key in entry :: entry[key]
  }

  predicate ContactsUsable(result: ContactResult) {
    && result.count.Int? && result.capacity.Int?
    && 0 <= result.count.i <= result.capacity.i && result.capacity.i > 0
    && result.entries.Arr?
    && forall i | 0 <= i < |result.entries.items| :: result.entries.items[i].Obj?
  }

  function ContactEntries(result: ContactResult): seq<Dict> {
    if result.entries.Arr? then
      seq(|result.entries.items|, i requires 0 <= i < |result.entries.items| => Fields(result.entries.items[i]))
    else []
  }

  predicate Counter(v: Value) {
    v.Int? && v.i >= 0
  }

  predicate PositiveSequences(rows: seq<Dict>) {
    SequencesValid(rows) && forall i | 0 <= i < |rows| :: SeqOf(rows[i]) > 0
  }

  predicate Sortable(rows: seq<Dict>) {
    forall i | 0 <= i < |rows| :: HasSeq(rows[i])
  }

  function DurableRows(entries: seq<Dict>, durable: set<string>): seq<Dict> {
    if entries == [] then []
    else
      DurableRows(entries[..|entries| - 1], durable)
      + if HasDurableFields(entries[|entries| - 1], durable) then [DurableRow(entries[|entries| - 1], durable)] else []
  }

  /** The contact snapshot is complete, durable and clean. */
  predicate ContactsAccepted(result: ContactResult, durable: set<string>) {
    && result.ok && result.persisted == Bool(true)
    && ContactsUsable(result)
    && result.count.i == |result.entries.items|
    && (forall i | 0 <= i < |ContactEntries(result)| :: HasDurableFields(ContactEntries(result)[i], durable))
    && PositiveSequences(DurableRows(ContactEntries(result), durable))
    && Counter(result.totalWritten) && Counter(result.droppedOldest) && Counter(result.persistenceRevision)
    && result.persistenceDirty == Bool(false) && result.persistenceLastError == Str("ESP_OK")
  }

  function ProjectContacts(result: ContactResult, durable: set<string>): ContactOutcome {
    if !result.ok || result.persisted != Bool(true) || !ContactsUsable(result) then NoContacts
    else
      var rows := DurableRows(ContactEntries(result), durable);
      if !Sortable(rows) then ContactSortRaised
      else ContactsProjected(ContactProjection(
        result.count, result.capacity, result.totalWritten, result.droppedOldest,
        result.persistenceRevision, SortBy(rows, SeqLess)))
  }

  method CollectDurable(entries: seq<Dict>, durable: set<string>)
    returns (projected: seq<Dict>, errors: seq<ContactError>)
    ensures projected == DurableRows(entries, durable)
    ensures errors == [] <==> forall i | 0 <= i < |entries| :: HasDurableFields(entries[i], durable)
    ensures errors == [] <==> |projected| == |entries|
  {
    projected, errors := [], [];
    for index := 0 to |entries|
      invariant projected == DurableRows(entries[..index], durable)
      invariant errors == [] <==> forall i | 0 <= i < index :: HasDurableFields(entries[i], durable)
      invariant |projected| <= index && (errors == [] <==> |projected| == index)
    {
      assert entries[..index + 1][..index] == entries[..index];
      if !HasDurableFields(entries[index], durable) {
        errors := errors + [DurableFieldMissing(index)];
      } else {
        projected := projected + [DurableRow(entries[index], durable)];
      }
    }
    assert entries[..|entries|] == entries;
  }

  method ProjectContactResult(result: ContactResult, durable: set<string> := DURABLE_FIELDS)
    returns (outcome: ContactOutcome, errors: seq<ContactError>)
    ensures errors == [] <==> ContactsAccepted(result, durable)
    ensures outcome == ProjectContacts(result, durable)
  {
    if !result.ok || result.persisted != Bool(true) {
      return NoContacts, [CommandOrPersistenceFailed];
    }
    if !ContactsUsable(result) {
      return NoContacts, [EntriesUnusable];
    }
    var entries := ContactEntries(result);
    errors := if result.count.i != |entries| then [SnapshotTruncated] else [];
    var projected, fieldErrors := CollectDurable(entries, durable);
    errors := errors + fieldErrors;
    if |projected| != |entries| || !PositiveSequences(projected) {
      errors := errors + [ContactSequencesInvalid];
    }
    if !Counter(result.totalWritten) || !Counter(result.droppedOldest) || !Counter(result.persistenceRevision) {
      errors := errors + [CounterInvalid];
    }
    if result.persistenceDirty != Bool(false) || result.persistenceLastError != Str("ESP_OK") {
      errors := errors + [PersistenceStateNotClean];
    }
    if !Sortable(projected) {
      return ContactSortRaised, errors;
    }
    outcome := ContactsProjected(ContactProjection(
      result.count, result.capacity, result.totalWritten, result.droppedOldest,
      result.persistenceRevision, SortBy(projected, SeqLess)));
  }

  // ----- the state and its capture

  datatype State = State(
    settings: Dict, publicMessages: Projection, directMessages: Projection, readState: Dict,
    contacts: ContactProjection)

  /** One decoded capture. `commandsExact` stands for the order, transcript, version, identity,
      health and crash-log checks made before anything is projected; `settings` and `readState`
      are the selected fields, absent when their command failed. */
  datatype Capture = Capture(
    commandsExact: bool, settings: Option<Dict>, publicPages: seq<Page>, directPages: seq<Page>,
    readState: Option<Dict>, contacts: Option<ContactResult>)

  /** No check of the capture reported an error. */
  predicate CaptureAccepted(capture: Capture, durable: set<string>) {
    && capture.commandsExact
    && capture.settings.Some?
    && Accepts(PublicMessages, capture.publicPages)
    && Accepts(DirectMessages, capture.directPages)
    && capture.contacts.Some? && ContactsAccepted(capture.contacts.value, durable)
    && capture.readState.Some?
  }

  function ProjectCapture(capture: Capture, durable: set<string>): Option<State> {
    if capture.settings.None? || capture.contacts.None? || capture.readState.None? then None
    else
      Assembled(
        capture.settings.value, ProjectPages(PublicMessages, capture.publicPages),
        ProjectPages(DirectMessages, capture.directPages), capture.readState.value,
        ProjectContacts(capture.contacts.value, durable))
  }

  /** The state, when every store projects. */
  function Assembled(
    settings: Dict, public: Outcome, direct: Outcome, readState: Dict, contacts: ContactOutcome): Option<State> {
    if public.Projected? && direct.Projected? && contacts.ContactsProjected?
    then Some(State(settings, public.projection, direct.projection, readState, contacts.projection))
    else None
  }

  /** Rows with distinct integer `seq`, in that order. */
  ghost predicate Ordered(rows: seq<Dict>) {
    && (forall i | 0 <= i < |rows| :: HasSeq(rows[i]))
    && StrictlySorted(rows, SeqLess)
  }

  /** What acceptance gives every later argument: canonical rows, counted, within capacity
      (except that a direct-message count is never compared with the capacity). */
  ghost predicate WellFormed(s: State) {
    && Ordered(s.publicMessages.entries)
    && Ordered(s.directMessages.entries)
    && Ordered(s.contacts.entries)
    && s.publicMessages.count == Int(|s.publicMessages.entries|)
    && s.directMessages.count == Int(|s.directMessages.entries|)
    && s.contacts.count == Int(|s.contacts.entries|)
    && s.publicMessages.capacity.Int? && |s.publicMessages.entries| <= s.publicMessages.capacity.i
    && s.contacts.capacity.Int? && |s.contacts.entries| <= s.contacts.capacity.i
  }

  /** A projected store with canonical rows, counted and, where asked, within capacity. */
  ghost predicate StoreOk(outcome: Outcome, bounded: bool) {
    && outcome.Projected?
    && Ordered(outcome.projection.entries) && outcome.projection.count == Int(|outcome.projection.entries|)
    && (bounded ==> outcome.projection.capacity.Int? && |outcome.projection.entries| <= outcome.projection.capacity.i)
  }

  ghost predicate ContactsOk(outcome: ContactOutcome) {
    && outcome.ContactsProjected?
    && Ordered(outcome.projection.entries) && outcome.projection.count == Int(|outcome.projection.entries|)
    && outcome.projection.capacity.Int? && |outcome.projection.entries| <= outcome.projection.capacity.i
  }

  lemma AcceptedStore(command: Command, pages: seq<Page>)
    requires Accepts(command, pages)
    ensures StoreOk(ProjectPages(command, pages), command.PublicMessages?)
  {
    AcceptedProjection(command, pages);
    var entries := AllEntries(pages);
    RetainedRowsSorted(entries);
    MembersFromMultiset(Filter(entries, Retained), SortBy(Filter(entries, Retained), SeqLess));
  }

  lemma {:induction false} DurableRowsComplete(entries: seq<Dict>, durable: set<string>)
    requires forall i | 0 <= i < |entries| :: HasDurableFields(entries[i], durable)
    ensures |DurableRows(entries, durable)| == |entries|
  {
    if entries != [] {
      DurableRowsComplete(entries[..|entries| - 1], durable);
    }
  }

  lemma SortedRows(rows: seq<Dict>)
    requires SequencesValid(rows)
    ensures Ordered(SortBy(rows, SeqLess)) && |SortBy(rows, SeqLess)| == |rows|
  {
    DistinctSequencesNoTies(rows);
    SortedBySeq(rows);
  }

  lemma AcceptedContacts(result: ContactResult, durable: set<string>)
    requires ContactsAccepted(result, durable)
    ensures ContactsOk(ProjectContacts(result, durable))
  {
    DurableRowsComplete(ContactEntries(result), durable);
    SortedRows(DurableRows(ContactEntries(result), durable));
  }

  /** The state of a capture whose stores project well. */
  lemma ProjectsWell(capture: Capture, durable: set<string>, public: Outcome, direct: Outcome, contacts: ContactOutcome)
    requires capture.settings.Some? && capture.readState.Some? && capture.contacts.Some?
    requires public == ProjectPages(PublicMessages, capture.publicPages) && StoreOk(public, true)
    requires direct == ProjectPages(DirectMessages, capture.directPages) && StoreOk(direct, false)
    requires contacts == ProjectContacts(capture.contacts.value, durable) && ContactsOk(contacts)
    ensures ProjectCapture(capture, durable).Some?
    ensures WellFormed(ProjectCapture(capture, durable).value)
  {
  }

  /** A capture without errors always projects, and to a well-formed state. */
  lemma AcceptedCapture(capture: Capture, durable: set<string>)
    requires CaptureAccepted(capture, durable)
    ensures ProjectCapture(capture, durable).Some?
    ensures WellFormed(ProjectCapture(capture, durable).value)
  {
    AcceptedStore(PublicMessages, capture.publicPages);
    AcceptedStore(DirectMessages, capture.directPages);
    AcceptedContacts(capture.contacts.value, durable);
    ProjectsWell(
      capture, durable, ProjectPages(PublicMessages, capture.publicPages),
      ProjectPages(DirectMessages, capture.directPages),
      ProjectContacts(capture.contacts.value, durable));
  }

  /** What `recompute_state_capture` makes of a capture: whether it finds no error, and the state it
      projects. */
  datatype StateReader = StateReader(accepts: Capture -> bool, project: Capture -> Option<State>)

  /** An accepted capture projects, to a well-formed state. */
  ghost predicate Sound(reader: StateReader) {
    forall capture | reader.accepts(capture) ::
      reader.project(capture).Some? && WellFormed(reader.project(capture).value)
  }

  function DurableReader(durable: set<string>): StateReader {
    StateReader((c: Capture) => CaptureAccepted(c, durable), (c: Capture) => ProjectCapture(c, durable))
  }

  lemma DurableReaderIsSound(durable: set<string>)
    ensures Sound(DurableReader(durable))
  {
    var reader := DurableReader(durable);
    forall capture | reader.accepts(capture)
      ensures reader.project(capture).Some? && WellFormed(reader.project(capture).value)
    {
      AcceptedCapture(capture, durable);
    }
  }

  // ----- `state_preserved`

  predicate NotRegressed(before: Value, after: Value) {
    before.Int? && after.Int? && before.i <= after.i
  }

  predicate StorePreserved(before: Projection, after: Projection) {
    && Members(before.entries) <= Members(after.entries)
    && NotRegressed(before.totalWritten, after.totalWritten)
    && NotRegressed(before.droppedOldest, after.droppedOldest)
    && NotRegressed(before.contentRevision, after.contentRevision)
  }

  predicate StatePreserved(baseline: State, observed: State) {
    && PyEq(Obj(baseline.settings), Obj(observed.settings))
    && PyEq(Obj(baseline.readState), Obj(observed.readState))
    && StorePreserved(baseline.publicMessages, observed.publicMessages)
    && StorePreserved(baseline.directMessages, observed.directMessages)
    && Members(baseline.contacts.entries) <= Members(observed.contacts.entries)
  }

  predicate IntegerCounters(p: Projection) {
    p.totalWritten.Int? && p.droppedOldest.Int? && p.contentRevision.Int?
  }

  /** No page check looks at these three counters, so a state preserves itself exactly when they
      happen to be integers. */
  lemma PreservedReflexiveIff(s: State)
    ensures StatePreserved(s, s) <==> IntegerCounters(s.publicMessages) && IntegerCounters(s.directMessages)
  {
  }

  lemma PreservedTransitive(a: State, b: State, c: State)
    requires StatePreserved(a, b) && StatePreserved(b, c)
    ensures StatePreserved(a, c)
  {
  }

  // ----- witnesses

  datatype Witness = Witness(nodeName: string, publicRow: Dict, directRow: Dict, contactRow: Dict)

  /** The rows equal to a witness row. */
  function Matching(rows: seq<Dict>, proof: Dict): seq<Dict> {
    Filter(rows, row => PyEq(Obj(row), Obj(proof)))
  }

  /** `retention_witness_check` in the only mode an accepted seed can have. */
  predicate WitnessCheck(s: State, proof: Witness) {
    && PyEq(Get(s.settings, "node_name"), Str(proof.nodeName))
    && |Matching(s.publicMessages.entries, proof.publicRow)| == 1
    && |Matching(s.directMessages.entries, proof.directRow)| == 1
    && |Matching(s.contacts.entries, proof.contactRow)| == 1
  }

  lemma EqualRowsShareSeq(a: Dict, b: Dict)
    requires HasSeq(a) && HasSeq(b) && ItemEq(Obj(a), Obj(b))
    ensures SeqOf(a) == SeqOf(b)
  {
    ItemEqMeaning(Obj(a), Obj(b));
    assert "seq" in a && "seq" in b;
    ItemEqMeaning(a["seq"], b["seq"]);
    assert SeqOf(a) as real == SeqOf(b) as real;
  }

  lemma {:induction false} NoMatchBelow(rows: seq<Dict>, keep: Dict -> bool)
    requires forall i | 0 <= i < |rows| :: !keep(rows[i])
    ensures Filter(rows, keep) == []
  {
    if rows != [] {
      NoMatchBelow(rows[..|rows| - 1], keep);
    }
  }

  lemma {:induction false} OneMatch(rows: seq<Dict>, keep: Dict -> bool, at: nat)
    requires at < |rows| && keep(rows[at])
    requires forall i | 0 <= i < |rows| && i != at :: !keep(rows[i])
    ensures Filter(rows, keep) == [rows[at]]
  {
    var init := rows[..|rows| - 1];
    if at == |rows| - 1 {
      NoMatchBelow(init, keep);
    } else {
      OneMatch(init, keep, at);
    }
  }

  lemma WitnessRowSurvives(before: seq<Dict>, after: seq<Dict>, proof: Dict)
    requires Ordered(before) && Ordered(after)
    requires Members(before) <= Members(after)
    requires |Matching(before, proof)| == 1
    ensures |Matching(after, proof)| == 1
  {
    var keep := (row: Dict) => PyEq(Obj(row), Obj(proof));
    var row := Matching(before, proof)[0];
    assert row in Matching(before, proof);
    assert row in Members(before);
    assert row in Members(after);
    var at :| 0 <= at < |after| && after[at] == row;
    forall i | 0 <= i < |after| && i != at ensures !keep(after[i]) {
      assert SeqLess(after[i], after[at]) || SeqLess(after[at], after[i]);
      if keep(after[i]) {
        EqualRowsShareSeq(after[i], row);
        assert false;
      }
    }
    OneMatch(after, keep, at);
    assert Matching(after, proof) == Filter(after, keep);
  }

  lemma NodeNameSurvives(before: Dict, after: Dict, name: string)
    requires ItemEq(Obj(before), Obj(after)) && PyEq(Get(before, "node_name"), Str(name))
    ensures PyEq(Get(after, "node_name"), Str(name))
  {
    ItemEqMeaning(Obj(before), Obj(after));
    assert "node_name" in before;
    assert ItemEq(before["node_name"], after["node_name"]);
  }

  /** A witness found once in the baseline is found once in every state that preserves it. */
  lemma WitnessSurvives(baseline: State, observed: State, proof: Witness)
    requires WellFormed(baseline) && WellFormed(observed)
    requires StatePreserved(baseline, observed) && WitnessCheck(baseline, proof)
    ensures WitnessCheck(observed, proof)
  {
    NodeNameSurvives(baseline.settings, observed.settings, proof.nodeName);
    WitnessRowSurvives(baseline.publicMessages.entries, observed.publicMessages.entries, proof.publicRow);
    WitnessRowSurvives(baseline.directMessages.entries, observed.directMessages.entries, proof.directRow);
    WitnessRowSurvives(baseline.contacts.entries, observed.contacts.entries, proof.contactRow);
  }

  // ----- full stores are pinned

  /** A full store that keeps its rows within the same capacity keeps exactly its rows. */
  lemma FullRowsPinned(before: seq<Dict>, after: seq<Dict>)
    requires Ordered(before) && Ordered(after)
    requires Members(before) <= Members(after)
    ensures before == after <==> |after| <= |before|
  {
    DistinctMembersCount(before);
    DistinctMembersCount(after);
    if |after| <= |before| {
      SubsetSize(Members(before), Members(after));
      SubsetOfEqualSize(Members(before), Members(after));
      forall row ensures row in before <==> row in after {
        assert row in before <==> row in Members(before);
        assert row in after <==> row in Members(after);
      }
      StrictlySortedUnique(before, after, SeqLess);
    }
  }
}
