/** Paged capture of one retained message store, and its projection to a canonical list of rows
    (scripts/core_reboot_persistence_d1l.py). */
module StorePages {
  import opened Common
  import opened Json
  import opened Sorting

  datatype Command = PublicMessages | DirectMessages {
    function Name(): string {
      if PublicMessages? then "messages public" else "messages dm"
    }
  }

  datatype PageError =
    | PagesMissing
    | PageFailed(page: nat)
    | UnexpectedlyFiltered(page: nat)
    | PersistenceNotClean(page: nat)
    | OffsetInvalid(page: nat)
    | EntriesInvalid(page: nat)
    | MetadataChanged
    | NextOffsetInvalid
    | NotConsecutive
    | Truncated
    | TotalMatchesDiffers
    | SequencesInvalid
    | ClassificationInvalid(entry: nat)
    | PreviewPresenceInvalid
    | PreviewIdentityInvalid
    | UnexpectedPreviewRow
    | RetainedCountInvalid
    | RetainedCountDiffers
    | PublicCountMismatch
    | SharedStoreCountInvalid
    | DirectCountMismatch

  datatype Projection = Projection(
    count: Value, capacity: Value, retainedStoreCount: Value, totalWritten: Value,
    droppedOldest: Value, retainedEpoch: Value, contentRevision: Value, entries: seq<Dict>)

  /** What a projection attempt comes to: no admissible page, a projection, or an exception
      (a comparison with a count that is no number, or a sort over rows without integer `seq`). */
  datatype Outcome = Missing | Projected(projection: Projection) | Raised

  // ----- one page

  /** The keys read from one decoded response: each field is what `.get` returns for its key. */
  datatype Page = Page(
    schema: Value, ok: Value, cmd: Value, filtered: Value, persisted: Value, persistence: Persistence,
    offset: Value, pageCount: Value, entries: Value, hasOlder: Value, nextOffset: Value,
    totalMatches: Value, count: Value, capacity: Value, totalWritten: Value, droppedOldest: Value,
    retainedEpoch: Value, contentRevision: Value, previewPresent: Value, previewSeq: Value,
    retainedStoreCount: Value, retainedPublicCount: Value, retainedCount: Value)

  datatype Persistence =
    | NoPersistence
    | Persistence(loaded: Value, dirty: Value, failures: Value,
                  nvs: bool, nvsDirty: Value, nvsFailures: Value, nvsLastError: Value)

  predicate CommandOk(page: Page, command: Command) {
    PyEq(page.schema, Int(1)) && page.ok == Bool(true) && page.cmd == Str(command.Name())
  }

  predicate CleanPersistence(page: Page) {
    var persistence := page.persistence;
    && persistence.Persistence?
    && persistence.loaded == Bool(true)
    && persistence.dirty == Bool(false)
    && PyEq(persistence.failures, Int(0))
    && persistence.nvs
    && persistence.nvsDirty == Bool(false)
    && PyEq(persistence.nvsFailures, Int(0))
    && persistence.nvsLastError == Str("ESP_OK")
    && page.persisted == Bool(true)
  }

  predicate OffsetValid(page: Page) {
    page.offset.Int? && page.offset.i >= 0
  }

  predicate EntriesValid(page: Page) {
    var entries := page.entries;
    && entries.Arr?
    && (forall i | 0 <= i < |entries.items| :: entries.items[i].Obj?)
    && PyEq(page.pageCount, Int(|entries.items|))
  }

  /** The page contributes its rows: none of the three early skips applies. */
  predicate Admitted(command: Command, page: Page) {
    CommandOk(page, command) && OffsetValid(page) && EntriesValid(page)
  }

  /** The page raises no error of its own. */
  predicate PageClean(command: Command, page: Page) {
    && Admitted(command, page)
    && page.filtered == Bool(false)
    && CleanPersistence(page)
  }

  function OffsetOf(page: Page): int {
    if page.offset.Int? then page.offset.i else -1
  }

  function PageEntries(page: Page): seq<Dict> {
    var entries := page.entries;
    if entries.Arr? then seq(|entries.items|, i requires 0 <= i < |entries.items| => Fields(entries.items[i]))
    else []
  }

  /** The fields that must not change while a store is being paged. */
  function Metadata(command: Command, page: Page): seq<Value> {
    [page.count, page.capacity, page.totalWritten, page.droppedOldest, page.totalMatches,
     page.retainedEpoch, page.contentRevision, page.previewPresent, page.previewSeq]
    + if command.PublicMessages? then [page.retainedStoreCount, page.retainedPublicCount]
      else [page.retainedCount]
  }

  predicate SameMetadata(command: Command, page: Page, first: Page) {
    AllEqual(Metadata(command, page), Metadata(command, first))
  }

  predicate AllEqual(a: seq<Value>, b: seq<Value>) {
    |a| == |b| && (a == [] || (PyEq(a[0], b[0]) && AllEqual(a[1..], b[1..])))
  }

  // ----- rows

  predicate SeqLess(a: Dict, b: Dict) {
    SeqOf(a) < SeqOf(b)
  }

  predicate HasSeq(row: Dict) {
    Get(row, "seq").Int?
  }

  predicate SequencesValid(entries: seq<Dict>) {
    && (forall i | 0 <= i < |entries| :: HasSeq(entries[i]))
    && (forall i, j | 0 <= i < j < |entries| :: SeqOf(entries[i]) != SeqOf(entries[j]))
  }

  /** Exactly one of `retained` and `volatile_preview` holds, and both are booleans. */
  predicate Classified(row: Dict) {
    && Get(row, "retained").Bool?
    && Get(row, "volatile_preview").Bool?
    && Get(row, "retained") != Get(row, "volatile_preview")
  }

  predicate Retained(row: Dict) {
    Classified(row) && Get(row, "retained") == Bool(true)
  }

  predicate Volatile(row: Dict) {
    Classified(row) && Get(row, "retained") == Bool(false)
  }

  function Filter(rows: seq<Dict>, keep: Dict -> bool): (r: seq<Dict>)
    ensures forall row :: row in r <==> row in rows && keep(row)
  {
    if rows == [] then []
    else
      var init, last := rows[..|rows| - 1], rows[|rows| - 1];
      assert forall row :: row in rows <==> row in init || row == last;
      Filter(init, keep) + if keep(last) then [last] else []
  }

  // ----- the whole capture

  /** What the pass over the pages has gathered: the first admitted page, offsets and rows. */
  datatype Gathered = Gathered(first: Option<Page>, offsets: seq<int>, entries: seq<Dict>)

  function Gather(command: Command, pages: seq<Page>): Gathered {
    if pages == [] then Gathered(None, [], [])
    else
      var before, page := Gather(command, pages[..|pages| - 1]), pages[|pages| - 1];
      if !Admitted(command, page) then before
      else Gathered(if before.first.None? then Some(page) else before.first,
                    before.offsets + [OffsetOf(page)], before.entries + PageEntries(page))
  }

  function AllEntries(pages: seq<Page>): seq<Dict> {
    if pages == [] then []
    else AllEntries(pages[..|pages| - 1]) + PageEntries(pages[|pages| - 1])
  }

  /** Each page but the last says older rows follow, and the next page starts where it says. */
  predicate Consecutive(pages: seq<Page>) {
    && (pages != [] ==> OffsetOf(pages[0]) == 0)
    && forall i | 0 <= i < |pages| - 1 ::
         && pages[i].hasOlder == Bool(true)
         && pages[i].nextOffset == Int(OffsetOf(pages[i + 1]))
         && OffsetOf(pages[i]) < OffsetOf(pages[i + 1])
  }

  predicate PreviewConsistent(first: Page, volatileRows: seq<Dict>) {
    var present, previewSeq := first.previewPresent, first.previewSeq;
    && present.Bool?
    && (if present.b then
          && |volatileRows| == 1
          && previewSeq.Int? && previewSeq.i > 0
          && PyEq(Get(volatileRows[0], "seq"), previewSeq)
        else
          volatileRows == [] && PyEq(previewSeq, Int(0)))
  }

  predicate CountsConsistent(command: Command, first: Page, retainedRows: seq<Dict>) {
    var count := first.count;
    && count == Int(|retainedRows|)
    && (if command.PublicMessages? then
          var storeCount, capacity := first.retainedStoreCount, first.capacity;
          && PyEq(first.retainedPublicCount, count)
          && storeCount.Int? && capacity.Int? && capacity.i > 0
          && |retainedRows| <= storeCount.i <= capacity.i
        else
          PyEq(first.retainedCount, count))
  }

  /** Every page is clean and repeats the first page's metadata. */
  predicate PagesClean(command: Command, pages: seq<Page>) {
    pages == [] ||
    (&& PagesClean(command, pages[..|pages| - 1])
     && PageClean(command, pages[|pages| - 1])
     && (|pages| > 1 ==> SameMetadata(command, pages[|pages| - 1], pages[0])))
  }

  /** The declarative meaning of "no error": what a reader of the capture may rely on. */
  predicate Accepts(command: Command, pages: seq<Page>) {
    && pages != []
    && PagesClean(command, pages)
    && Consecutive(pages)
    && pages[|pages| - 1].hasOlder == Bool(false)
    && RowsConsistent(command, pages[0], AllEntries(pages))
  }

  predicate RowsConsistent(command: Command, first: Page, entries: seq<Dict>) {
    && PyEq(first.totalMatches, Int(|entries|))
    && SequencesValid(entries)
    && (forall i | 0 <= i < |entries| :: Classified(entries[i]))
    && PreviewConsistent(first, Filter(entries, Volatile))
    && CountsConsistent(command, first, Filter(entries, Retained))
  }

  function ProjectionOf(command: Command, first: Page, retainedRows: seq<Dict>): Projection {
    Projection(
      first.count, first.capacity,
      if command.PublicMessages? then first.retainedStoreCount else Null,
      first.totalWritten, first.droppedOldest, first.retainedEpoch,
      first.contentRevision, SortBy(retainedRows, SeqLess))
  }

  /** The comparison `store_count < retained_count` is reached with a count that has no order. */
  predicate CountComparisonRaises(command: Command, first: Page) {
    var storeCount, capacity, count :=
      first.retainedStoreCount, first.capacity, first.count;
    && command.PublicMessages?
    && storeCount.Int? && capacity.Int? && capacity.i > 0
    && !IsNumber(count) && !count.NaN?
  }

  function ProjectPages(command: Command, pages: seq<Page>): Outcome {
    var gathered := Gather(command, pages);
    if gathered.first.None? then Missing
    else
      var retainedRows := Filter(gathered.entries, Retained);
      if CountComparisonRaises(command, gathered.first.value) then Raised
      else if exists i | 0 <= i < |retainedRows| :: !HasSeq(retainedRows[i]) then Raised
      else Projected(ProjectionOf(command, gathered.first.value, retainedRows))
  }

  // ----- `_page_projection`

  /** `expected` is what `ExpectedOffsets` returns for the pages, `bad` its verdict. */
  ghost predicate Predicts(pages: seq<Page>, expected: seq<int>, bad: bool) {
    && 1 <= |expected| <= |pages| && expected[0] == 0
    && (forall i | 0 <= i < |expected| - 1 ::
          && pages[i].hasOlder == Bool(true)
          && pages[i].nextOffset == Int(expected[i + 1])
          && expected[i] < expected[i + 1])
    && var last := pages[|expected| - 1];
       var next := last.nextOffset;
       var stuck := !next.Int? || next.i <= expected[|expected| - 1];
       && (bad <==> last.hasOlder == Bool(true) && stuck)
       && (|expected| < |pages| ==> last.hasOlder != Bool(true) || stuck)
  }

  /** The walk over `has_older`/`next_offset` that predicts every page's offset. */
  method ExpectedOffsets(pages: seq<Page>) returns (expected: seq<int>, bad: bool)
    requires pages != []
    ensures Predicts(pages, expected, bad)
  {
    expected, bad := [], false;
    var cursor := 0;
    for k := 0 to |pages|
      invariant |expected| == k && !bad
      invariant k == 0 ==> cursor == 0
      invariant k > 0 ==>
                  && expected[0] == 0 && pages[k - 1].hasOlder == Bool(true)
                  && pages[k - 1].nextOffset == Int(cursor) && expected[k - 1] < cursor
      invariant forall i | 0 <= i < k - 1 ::
                  && pages[i].hasOlder == Bool(true)
                  && pages[i].nextOffset == Int(expected[i + 1])
                  && expected[i] < expected[i + 1]
    {
      expected := expected + [cursor];
      var page := pages[k];
      if page.hasOlder == Bool(true) {
        var next := page.nextOffset;
        if !next.Int? || next.i <= cursor {
          bad := true;
          return;
        }
        cursor := next.i;
      } else {
        return;
      }
    }
  }

  function Offsets(pages: seq<Page>): seq<int> {
    seq(|pages|, i requires 0 <= i < |pages| => OffsetOf(pages[i]))
  }

  /** The comparison of observed with predicted offsets, read off the pages. */
  lemma OffsetsMatchWhenConsecutive(pages: seq<Page>, expected: seq<int>, bad: bool)
    requires Predicts(pages, expected, bad)
    requires pages[|pages| - 1].hasOlder == Bool(false)
    ensures !bad && Offsets(pages) == expected <==> Consecutive(pages)
  {
    var offsets := Offsets(pages);
    if !bad && offsets == expected {
      forall i | 0 <= i < |pages| - 1
        ensures pages[i].nextOffset == Int(OffsetOf(pages[i + 1]))
        ensures OffsetOf(pages[i]) < OffsetOf(pages[i + 1])
      {
        assert offsets[i] == expected[i] && offsets[i + 1] == expected[i + 1];
      }
      assert offsets[0] == expected[0];
    }
    if Consecutive(pages) {
      var m := |expected| - 1;
      AgreeOnPrefix(pages, expected, m);
      ConsecutiveAt(pages, m);
      assert offsets == expected;
    }
  }

  lemma ConsecutiveAt(pages: seq<Page>, m: nat)
    requires Consecutive(pages)
    ensures m < |pages| - 1 ==>
              && pages[m].hasOlder == Bool(true)
              && pages[m].nextOffset == Int(OffsetOf(pages[m + 1]))
              && OffsetOf(pages[m]) < OffsetOf(pages[m + 1])
  {
  }

  lemma {:induction false} AgreeOnPrefix(pages: seq<Page>, expected: seq<int>, m: nat)
    requires m < |expected| <= |pages| && expected[0] == 0
    requires forall i | 0 <= i < |expected| - 1 :: pages[i].nextOffset == Int(expected[i + 1])
    requires Consecutive(pages)
    ensures forall i | 0 <= i <= m :: OffsetOf(pages[i]) == expected[i]
  {
    if m > 0 {
      AgreeOnPrefix(pages, expected, m - 1);
      assert pages[m - 1].nextOffset == Int(expected[m]);
    }
  }

  /** The checks on one page, given the first page admitted so far. */
  method CheckPage(command: Command, index: nat, result: Page, first: Option<Page>)
    returns (admit: bool, errors: seq<PageError>)
    ensures admit <==> Admitted(command, result)
    ensures errors == [] <==> PageClean(command, result) && (first.Some? ==> SameMetadata(command, result, first.value))
  {
    if !CommandOk(result, command) {
      return false, [PageFailed(index)];
    }
    errors := [];
    if result.filtered != Bool(false) {
      errors := errors + [UnexpectedlyFiltered(index)];
    }
    if !CleanPersistence(result) {
      errors := errors + [PersistenceNotClean(index)];
    }
    if !OffsetValid(result) {
      return false, errors + [OffsetInvalid(index)];
    }
    if !EntriesValid(result) {
      return false, errors + [EntriesInvalid(index)];
    }
    if first.Some? && !SameMetadata(command, result, first.value) {
      errors := errors + [MetadataChanged];
    }
    admit := true;
  }

  method CollectPages(command: Command, pages: seq<Page>)
    returns (first: Option<Page>, offsets: seq<int>, entries: seq<Dict>, errors: seq<PageError>)
    ensures Gathered(first, offsets, entries) == Gather(command, pages)
    ensures errors == [] <==> PagesClean(command, pages)
  {
    first, offsets, entries, errors := None, [], [], [];
    for index := 0 to |pages|
      invariant Gathered(first, offsets, entries) == Gather(command, pages[..index])
      invariant errors == [] <==> PagesClean(command, pages[..index])
      invariant errors == [] && index > 0 ==> first == Some(pages[0])
    {
      var result := pages[index];
      assert pages[..index + 1][..index] == pages[..index];
      var admit, pageErrors := CheckPage(command, index, result, first);
      errors := errors + pageErrors;
      if admit {
        if first.None? {
          first := Some(result);
        }
        offsets := offsets + [OffsetOf(result)];
        entries := entries + PageEntries(result);
      }
    }
    assert pages[..|pages|] == pages;
  }

  /** A clean capture contributes every page. */
  lemma {:induction false} GatherClean(command: Command, pages: seq<Page>)
    requires pages != [] && PagesClean(command, pages)
    ensures Gather(command, pages) == Gathered(Some(pages[0]), Offsets(pages), AllEntries(pages))
  {
    var init := pages[..|pages| - 1];
    if init == [] {
      assert Gather(command, init) == Gathered(None, [], []);
      assert AllEntries(init) == [];
    } else {
      GatherClean(command, init);
      assert Offsets(pages) == Offsets(init) + [OffsetOf(pages[|pages| - 1])];
    }
  }

  method ClassifyRows(entries: seq<Dict>)
    returns (retainedRows: seq<Dict>, volatileRows: seq<Dict>, errors: seq<PageError>)
    ensures retainedRows == Filter(entries, Retained) && volatileRows == Filter(entries, Volatile)
    ensures errors == [] <==> forall i | 0 <= i < |entries| :: Classified(entries[i])
  {
    retainedRows, volatileRows, errors := [], [], [];
    for index := 0 to |entries|
      invariant retainedRows == Filter(entries[..index], Retained)
      invariant volatileRows == Filter(entries[..index], Volatile)
      invariant errors == [] <==> forall i | 0 <= i < index :: Classified(entries[i])
    {
      var entry := entries[index];
      assert entries[..index + 1][..index] == entries[..index];
      if !Classified(entry) {
        errors := errors + [ClassificationInvalid(index)];
      } else if Get(entry, "retained") == Bool(true) {
        retainedRows := retainedRows + [entry];
      } else {
        volatileRows := volatileRows + [entry];
      }
    }
    assert entries[..|entries|] == entries;
  }

  /** Pagination: offsets as predicted, and the last page says it is the last. */
  method CheckOrder(pages: seq<Page>, offsets: seq<int>) returns (errors: seq<PageError>)
    requires pages != []
    ensures offsets == Offsets(pages) ==>
              (errors == [] <==> Consecutive(pages) && pages[|pages| - 1].hasOlder == Bool(false))
  {
    errors := [];
    var expected, bad := ExpectedOffsets(pages);
    if bad {
      errors := errors + [NextOffsetInvalid];
    }
    if offsets != (if |offsets| <= |expected| then expected[..|offsets|] else expected) {
      errors := errors + [NotConsecutive];
    }
    if pages[|pages| - 1].hasOlder != Bool(false) {
      errors := errors + [Truncated];
    }
    if offsets == Offsets(pages) && pages[|pages| - 1].hasOlder == Bool(false) {
      OffsetsMatchWhenConsecutive(pages, expected, bad);
      assert |expected| == |pages| ==> expected[..|offsets|] == expected;
    }
  }

  method CheckPreview(first: Page, volatileRows: seq<Dict>) returns (errors: seq<PageError>)
    ensures errors == [] <==> PreviewConsistent(first, volatileRows)
  {
    errors := [];
    if !first.previewPresent.Bool? {
      errors := [PreviewPresenceInvalid];
    } else if first.previewPresent.b {
      if |volatileRows| != 1 || !first.previewSeq.Int? || first.previewSeq.i <= 0
         || !PyEq(Get(volatileRows[0], "seq"), first.previewSeq) {
        errors := [PreviewIdentityInvalid];
      }
    } else if volatileRows != [] || !PyEq(first.previewSeq, Int(0)) {
      errors := [UnexpectedPreviewRow];
    }
  }

  method CheckCounts(command: Command, first: Page, retainedRows: seq<Dict>)
    returns (raised: bool, errors: seq<PageError>)
    ensures raised <==> CountComparisonRaises(command, first)
    ensures !raised ==> (errors == [] <==> CountsConsistent(command, first, retainedRows))
    ensures raised ==> errors != []
  {
    raised, errors := false, [];
    var count := first.count;
    if !count.Int? || count.i < 0 {
      errors := [RetainedCountInvalid];
    } else if count.i != |retainedRows| {
      errors := [RetainedCountDiffers];
    }
    if command.PublicMessages? {
      if !PyEq(first.retainedPublicCount, count) {
        errors := errors + [PublicCountMismatch];
      }
      var storeCount, capacity := first.retainedStoreCount, first.capacity;
      if !storeCount.Int? || !capacity.Int? || capacity.i <= 0 {
        errors := errors + [SharedStoreCountInvalid];
      } else if !IsNumber(count) && !count.NaN? {
        raised := true;
      } else if (IsNumber(count) && storeCount.i as real < NumberOf(count)) || storeCount.i > capacity.i {
        errors := errors + [SharedStoreCountInvalid];
      }
    } else if !PyEq(first.retainedCount, count) {
      errors := errors + [DirectCountMismatch];
    }
  }

  /** The checks on the gathered rows; `raised` when the projection cannot be completed. */
  method CheckRows(command: Command, first: Page, entries: seq<Dict>) returns (raised: bool, errors: seq<PageError>)
    ensures errors == [] <==> RowsConsistent(command, first, entries)
    ensures raised <==>
            || CountComparisonRaises(command, first)
            || exists i | 0 <= i < |Filter(entries, Retained)| :: !HasSeq(Filter(entries, Retained)[i])
  {
    errors := [];
    if !PyEq(first.totalMatches, Int(|entries|)) {
      errors := errors + [TotalMatchesDiffers];
    }
    if !SequencesValid(entries) {
      errors := errors + [SequencesInvalid];
    }
    var retainedRows, volatileRows, rowErrors := ClassifyRows(entries);
    var previewErrors := CheckPreview(first, volatileRows);
    var countRaised, countErrors := CheckCounts(command, first, retainedRows);
    raised := countRaised || exists i | 0 <= i < |retainedRows| :: !HasSeq(retainedRows[i]);
    errors := errors + rowErrors + previewErrors + countErrors;
  }

  method PageProjection(command: Command, pages: seq<Page>)
    returns (outcome: Outcome, errors: seq<PageError>)
    ensures errors == [] <==> Accepts(command, pages)
    ensures outcome == ProjectPages(command, pages)
  {
    if pages == [] {
      return Missing, [PagesMissing];
    }
    var firstPage, offsets, entries, pageErrors := CollectPages(command, pages);
    if PagesClean(command, pages) { GatherClean(command, pages); }
    if firstPage.None? {
      return Missing, pageErrors;
    }
    var orderErrors := CheckOrder(pages, offsets);
    if pageErrors == [] { assert offsets == Offsets(pages); }
    var raised, rowErrors := CheckRows(command, firstPage.value, entries);
    errors := pageErrors + orderErrors + rowErrors;
    var retainedRows := Filter(entries, Retained);
    if raised {
      return Raised, errors;
    }
    outcome := Projected(ProjectionOf(command, firstPage.value, retainedRows));
  }
}
