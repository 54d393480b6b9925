/** Captures of a small device, on which a property that looks general fails
    (scripts/core_reboot_persistence_d1l.py). */
module SampleCaptures {
  import opened Common
  import opened Json
  import opened Sorting
  import opened StorePages
  import opened StoreCapture
  import opened RetainedState
  import opened SeedProof

  // ----- one page of a store of capacity one

  function SampleRow(seqno: int): Dict {
    map["seq" := Int(seqno), "retained" := Bool(true), "volatile_preview" := Bool(false)]
  }

  function SampleRows(n: nat): seq<Dict> {
    seq(n, i => SampleRow(i + 1))
  }

  /** All `n` rows of the store, on one page; `written` is its `total_written`. */
  function SamplePage(command: Command, n: nat, written: Value): Page {
    var rows := SampleRows(n);
    Page(Int(1), Bool(true), Str(command.Name()), Bool(false), Bool(true),
         Persistence(Bool(true), Bool(false), Int(0), true, Bool(false), Int(0), Str("ESP_OK")),
         Int(0), Int(n), Arr(seq(n, i requires 0 <= i < n => Obj(rows[i]))), Bool(false), Int(0),
         Int(n), Int(n), Int(1), written, Int(0), Int(1), Int(1), Bool(false), Int(0),
         Int(n), Int(n), Int(n))
  }

  lemma SampleRowRetained(seqno: int)
    ensures var row := SampleRow(seqno);
            Retained(row) && !Volatile(row) && HasSeq(row) && SeqOf(row) == seqno
  {
  }

  lemma SampleRowsRetained(n: nat)
    ensures SequencesValid(SampleRows(n)) && forall i | 0 <= i < n :: Classified(SampleRows(n)[i])
    ensures Filter(SampleRows(n), Retained) == SampleRows(n) && Filter(SampleRows(n), Volatile) == []
  {
    var rows := SampleRows(n);
    forall i | 0 <= i < n
      ensures Retained(rows[i]) && !Volatile(rows[i]) && HasSeq(rows[i]) && SeqOf(rows[i]) == i + 1
    {
      SampleRowRetained(i + 1);
      assert rows[i] == SampleRow(i + 1);
    }
    KeepAll(rows, Retained);
    NoMatchBelow(rows, Volatile);
  }

  lemma {:induction false} KeepAll(rows: seq<Dict>, keep: Dict -> bool)
    requires forall i | 0 <= i < |rows| :: keep(rows[i])
    ensures Filter(rows, keep) == rows
  {
    if rows != [] {
      KeepAll(rows[..|rows| - 1], keep);
      assert rows == rows[..|rows| - 1] + [rows[|rows| - 1]];
    }
  }

  lemma SampleRowsConsistent(command: Command, n: nat, written: Value)
    requires command.PublicMessages? ==> n == 1
    ensures RowsConsistent(command, SamplePage(command, n, written), SampleRows(n))
  {
    SampleRowsRetained(n);
  }

  lemma SamplePageAlone(command: Command, n: nat, written: Value)
    requires !written.NaN?
    ensures PagesClean(command, [SamplePage(command, n, written)])
    ensures AllEntries([SamplePage(command, n, written)]) == SampleRows(n)
  {
    var page := SamplePage(command, n, written);
    var pages := [page];
    assert pages[..0] == [];
    assert PageEntries(page) == SampleRows(n);
    assert AllEntries(pages[..0]) == [];
    assert PagesClean(command, pages[..0]);
    assert PageClean(command, page);
  }

  function SampleProjection(command: Command, n: nat, written: Value): Projection {
    ProjectionOf(command, SamplePage(command, n, written), SampleRows(n))
  }

  /** The page is captured without error: any number of direct messages from a store whose declared
      capacity is one, whatever its `total_written`. */
  lemma SampleAccepted(command: Command, n: nat, written: Value)
    requires !written.NaN? && (command.PublicMessages? ==> n == 1)
    ensures var pages := [SamplePage(command, n, written)];
            Accepts(command, pages) && ProjectPages(command, pages) == Projected(SampleProjection(command, n, written))
  {
    var pages := [SamplePage(command, n, written)];
    SampleRowsConsistent(command, n, written);
    SamplePageAlone(command, n, written);
    SampleRowsRetained(n);
    assert Consecutive(pages);
    AcceptedProjection(command, pages);
  }

  /** No check compares the direct-message count with the capacity. */
  lemma DirectCapacityUnchecked(n: nat)
    ensures var pages := [SamplePage(DirectMessages, n, Int(2))];
            && Accepts(DirectMessages, pages)
            && |CapturedRows(DirectMessages, pages)| == n
            && pages[0].capacity == Int(1)
  {
    SampleAccepted(DirectMessages, n, Int(2));
    SampleSorted(DirectMessages, n, Int(2));
  }

  lemma SortedSame(rows: seq<Dict>)
    requires SequencesValid(rows)
    ensures var sorted := SortBy(rows, SeqLess);
            Ordered(sorted) && |sorted| == |rows| && Members(sorted) == Members(rows)
  {
    SortedRows(rows);
    MembersFromMultiset(rows, SortBy(rows, SeqLess));
  }

  lemma SampleSorted(command: Command, n: nat, written: Value)
    ensures var entries := SampleProjection(command, n, written).entries;
            Ordered(entries) && |entries| == n && Members(entries) == Members(SampleRows(n))
  {
    SampleRowsRetained(n);
    SortedSame(SampleRows(n));
  }

  // ----- a whole capture

  function SampleContact(): Dict {
    map key | key in DURABLE_FIELDS :: if key == "seq" then Int(1) else Str("")
  }

  function SampleContacts(): ContactResult {
    ContactResult(
      true, Bool(true), Arr([Obj(SampleContact())]), Int(1), Int(1), Int(1), Int(0), Int(1), Bool(false), Str("ESP_OK"))
  }

  /** One Public message, `n` direct messages and one contact, in stores of capacity one. */
  function SampleCapture(n: nat, written: Value): Capture {
    Capture(
      true, Some(map["node_name" := Str("node")]),
      [SamplePage(PublicMessages, 1, Int(1))], [SamplePage(DirectMessages, n, written)],
      Some(map["dm_unread" := Int(0)]), Some(SampleContacts()))
  }

  function SampleState(n: nat, written: Value): State {
    State(
      map["node_name" := Str("node")],
      SampleProjection(PublicMessages, 1, Int(1)), SampleProjection(DirectMessages, n, written),
      map["dm_unread" := Int(0)],
      ContactProjection(Int(1), Int(1), Int(1), Int(0), Int(1), [SampleContact()]))
  }

  lemma SampleContactsAccepted()
    ensures ContactsAccepted(SampleContacts(), DURABLE_FIELDS)
    ensures ProjectContacts(SampleContacts(), DURABLE_FIELDS)
         == ContactsProjected(ContactProjection(Int(1), Int(1), Int(1), Int(0), Int(1), [SampleContact()]))
  {
    var rows, row := ContactEntries(SampleContacts()), SampleContact();
    assert rows == [row] && rows[..0] == [];
    assert DurableRow(row, DURABLE_FIELDS) == row && HasDurableFields(row, DURABLE_FIELDS);
    assert DurableRows(rows, DURABLE_FIELDS) == DurableRows([], DURABLE_FIELDS) + [row] == [row];
    assert "seq" in row && Get(row, "seq") == Int(1);
    assert [row][..0] == [] && SortBy([], SeqLess) == [];
    assert SortBy([row], SeqLess) == [row];
  }

  lemma SampleProjects(n: nat, written: Value, public: Outcome, direct: Outcome, contacts: ContactOutcome)
    requires public == ProjectPages(PublicMessages, SampleCapture(n, written).publicPages)
    requires direct == ProjectPages(DirectMessages, SampleCapture(n, written).directPages)
    requires contacts == ProjectContacts(SampleContacts(), DURABLE_FIELDS)
    requires public == Projected(SampleState(n, written).publicMessages)
    requires direct == Projected(SampleState(n, written).directMessages)
    requires contacts == ContactsProjected(SampleState(n, written).contacts)
    ensures ProjectCapture(SampleCapture(n, written), DURABLE_FIELDS) == Some(SampleState(n, written))
  {
  }

  lemma SampleCaptureExact(n: nat, written: Value)
    requires !written.NaN?
    ensures CaptureAccepted(SampleCapture(n, written), DURABLE_FIELDS)
  {
    SampleAccepted(PublicMessages, 1, Int(1));
    SampleAccepted(DirectMessages, n, written);
    SampleContactsAccepted();
  }

  /** The capture is accepted, and this is its state. */
  lemma SampleCaptureAccepted(n: nat, written: Value)
    requires !written.NaN?
    ensures var reader := DurableReader(DURABLE_FIELDS);
            && reader.accepts(SampleCapture(n, written))
            && reader.project(SampleCapture(n, written)) == Some(SampleState(n, written))
  {
    SampleCaptureExact(n, written);
    SampleAccepted(PublicMessages, 1, Int(1));
    SampleAccepted(DirectMessages, n, written);
    SampleContactsAccepted();
    SampleProjects(
      n, written, ProjectPages(PublicMessages, SampleCapture(n, written).publicPages),
      ProjectPages(DirectMessages, SampleCapture(n, written).directPages),
      ProjectContacts(SampleContacts(), DURABLE_FIELDS));
  }

  // ----- what the captures show

  lemma SampleStoresFull(written: Value)
    ensures StoresFull(SampleState(1, written))
  {
    SampleSorted(PublicMessages, 1, Int(1));
    SampleSorted(DirectMessages, 1, written);
  }

  lemma SampleRowsGrow(n: nat)
    requires n > 0
    ensures Members(SampleRows(1)) <= Members(SampleRows(n))
  {
    assert SampleRows(1) == [SampleRow(1)];
    assert SampleRows(n)[0] == SampleRow(1);
  }

  lemma SampleGrows(n: nat, written: int)
    requires n > 0
    ensures StatePreserved(SampleState(1, Int(written)), SampleState(n, Int(written)))
  {
    SampleSorted(DirectMessages, 1, Int(written));
    SampleSorted(DirectMessages, n, Int(written));
    SampleRowsGrow(n);
  }

  /** Two accepted captures, the first with all stores full, the second preserving it at the same
      capacities, with any larger number of direct messages. */
  lemma DirectMessagesMayGrow(n: nat)
    requires n > 1
    ensures var reader := DurableReader(DURABLE_FIELDS);
            var first, second := SampleCapture(1, Int(2)), SampleCapture(n, Int(2));
            && reader.accepts(first) && reader.project(first) == Some(SampleState(1, Int(2)))
            && reader.accepts(second) && reader.project(second) == Some(SampleState(n, Int(2)))
    ensures var baseline, later := SampleState(1, Int(2)), SampleState(n, Int(2));
            && StoresFull(baseline) && StatePreserved(baseline, later)
            && later.directMessages.capacity == baseline.directMessages.capacity == Int(1)
            && |later.directMessages.entries| == n > |baseline.directMessages.entries|
  {
    SampleCaptureAccepted(1, Int(2));
    SampleCaptureAccepted(n, Int(2));
    SampleStoresFull(Int(2));
    SampleGrows(n, 2);
    SampleSorted(DirectMessages, 1, Int(2));
    SampleSorted(DirectMessages, n, Int(2));
  }

  /** An accepted capture whose state does not preserve itself: a counter that is no integer. */
  lemma AcceptedNotSelfPreserved()
    ensures var reader := DurableReader(DURABLE_FIELDS);
            var capture, state := SampleCapture(1, Float(2.0)), SampleState(1, Float(2.0));
            && reader.accepts(capture) && reader.project(capture) == Some(state)
            && !StatePreserved(state, state)
  {
    SampleCaptureAccepted(1, Float(2.0));
    PreservedReflexiveIff(SampleState(1, Float(2.0)));
  }
}
