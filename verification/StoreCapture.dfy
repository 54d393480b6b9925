/** Why an error-free paged capture is a complete one, and when an honest device yields one
    (scripts/core_reboot_persistence_d1l.py). */
module StoreCapture {
  import opened Common
  import opened Json
  import opened Sorting
  import opened StorePages

  // ----- completeness by counting

  /** The rows of a projection are the retained ones, in strictly increasing `seq` order. */
  lemma SeqLessComparesByKey()
    ensures ComparesByKey(SeqLess)
  {
  }

  lemma DistinctSequencesNoTies(rows: seq<Dict>)
    requires SequencesValid(rows)
    ensures NoTies(rows, SeqLess)
  {
  }

  /** Rows without ties sort to a strictly increasing list of the same rows. */
  lemma SortedBySeq(rows: seq<Dict>)
    requires NoTies(rows, SeqLess) && forall row | row in rows :: HasSeq(row)
    ensures StrictlySorted(SortBy(rows, SeqLess), SeqLess)
    ensures forall row :: row in SortBy(rows, SeqLess) <==> row in rows
    ensures forall i | 0 <= i < |SortBy(rows, SeqLess)| :: HasSeq(SortBy(rows, SeqLess)[i])
    ensures |SortBy(rows, SeqLess)| == |rows|
  {
    var sorted := SortBy(rows, SeqLess);
    SeqLessComparesByKey();
    SortByStrict(rows, SeqLess);
    MembersFromMultiset(rows, sorted);
    forall i | 0 <= i < |sorted| ensures HasSeq(sorted[i]) { assert sorted[i] in rows; }
  }

  lemma RetainedRowsSorted(entries: seq<Dict>)
    requires SequencesValid(entries)
    ensures var rows := SortBy(Filter(entries, Retained), SeqLess);
            && (forall row :: row in rows <==> row in entries && Retained(row))
            && (forall i | 0 <= i < |rows| :: HasSeq(rows[i]))
            && StrictlySorted(rows, SeqLess)
  {
    DistinctSequencesNoTies(entries);
    FilterKeepsOrder(entries, Retained);
    SortedBySeq(Filter(entries, Retained));
  }

  /** An accepted capture projects to the sorted retained rows of all its pages. */
  lemma AcceptedProjection(command: Command, pages: seq<Page>)
    requires Accepts(command, pages)
    ensures ProjectPages(command, pages)
         == Projected(ProjectionOf(command, pages[0], Filter(AllEntries(pages), Retained)))
  {
    GatherClean(command, pages);
    var entries := AllEntries(pages);
    var retainedRows := Filter(entries, Retained);
    forall i | 0 <= i < |retainedRows| ensures HasSeq(retainedRows[i]) {
      assert retainedRows[i] in entries;
    }
  }

  lemma {:induction false} FilterKeepsOrder(rows: seq<Dict>, keep: Dict -> bool)
    requires NoTies(rows, SeqLess)
    ensures NoTies(Filter(rows, keep), SeqLess)
  {
    if rows != [] {
      var init, last := rows[..|rows| - 1], rows[|rows| - 1];
      FilterKeepsOrder(init, keep);
      var kept := Filter(init, keep);
      forall i | 0 <= i < |kept| ensures SeqLess(kept[i], last) || SeqLess(last, kept[i]) {
        assert kept[i] in init;
        var k :| 0 <= k < |init| && init[k] == kept[i];
        assert rows[k] == kept[i];
      }
    }
  }

  lemma CountedRowsAreTheStore(entries: seq<Dict>, store: set<Dict>)
    requires SequencesValid(entries) && |entries| == |store|
    requires forall row | row in entries :: row in store
    ensures Members(entries) == store
  {
    DistinctMembersCount(entries);
    SubsetOfEqualSize(Members(entries), store);
  }

  /** The rows of an accepted capture. */
  function CapturedRows(command: Command, pages: seq<Page>): seq<Dict> {
    match ProjectPages(command, pages)
    case Projected(projection) => projection.entries
    case _ => []
  }

  lemma CapturedRowsSorted(command: Command, pages: seq<Page>)
    requires Accepts(command, pages)
    ensures ProjectPages(command, pages).Projected?
    ensures CapturedRows(command, pages) == SortBy(Filter(AllEntries(pages), Retained), SeqLess)
    ensures SequencesValid(AllEntries(pages))
    ensures PyEq(pages[0].totalMatches, Int(|AllEntries(pages)|))
  {
    AcceptedProjection(command, pages);
  }

  /** `next_offset` is never compared with offset plus page count. Counting makes up for it: rows
      with distinct `seq`, all from one store, as many as the store has, are the whole store. */
  lemma CompletenessByCounting(command: Command, pages: seq<Page>, store: set<Dict>)
    requires Accepts(command, pages)
    requires forall row | row in AllEntries(pages) :: row in store
    requires PyEq(pages[0].totalMatches, Int(|store|))
    ensures Members(AllEntries(pages)) == store
    ensures forall row :: row in CapturedRows(command, pages) <==> row in store && Retained(row)
    ensures StrictlySorted(CapturedRows(command, pages), SeqLess)
  {
    CapturedRowsSorted(command, pages);
    var entries := AllEntries(pages);
    EqualsOneInteger(pages[0].totalMatches, |entries|, |store|);
    CountedRowsAreTheStore(entries, store);
    RetainedRowsSorted(entries);
    forall row ensures row in entries <==> row in store {
      assert row in Members(entries) <==> row in entries;
    }
  }

  /** Two error-free captures of one store give the same rows, whatever the page sizes. */
  lemma CapturesAgree(command: Command, a: seq<Page>, b: seq<Page>, store: set<Dict>)
    requires Accepts(command, a) && Accepts(command, b)
    requires forall row | row in AllEntries(a) || row in AllEntries(b) :: row in store
    requires PyEq(a[0].totalMatches, Int(|store|)) && PyEq(b[0].totalMatches, Int(|store|))
    ensures CapturedRows(command, a) == CapturedRows(command, b)
  {
    CompletenessByCounting(command, a, store);
    CompletenessByCounting(command, b, store);
    StrictlySortedUnique(CapturedRows(command, a), CapturedRows(command, b), SeqLess);
  }

  // ----- `_capture_pages`

  /** The device answers the request for an offset with a page. */
  type Device = nat -> Page

  predicate FollowsNext(command: Command, page: Page, offset: nat) {
    && CommandOk(page, command)
    && page.hasOlder == Bool(true)
    && page.nextOffset.Int? && page.nextOffset.i > offset
  }

  function CaptureFrom(command: Command, device: Device, offset: nat, budget: nat): seq<Page>
    decreases budget
  {
    if budget == 0 then []
    else if !FollowsNext(command, device(offset), offset) then [device(offset)]
    else [device(offset)] + CaptureFrom(command, device, device(offset).nextOffset.i, budget - 1)
  }

  const MAX_PAGES: nat := 32

  method CapturePages(command: Command, device: Device, maxPages: nat := MAX_PAGES) returns (rows: seq<Page>)
    ensures rows == CaptureFrom(command, device, 0, maxPages)
  {
    rows := [];
    var offset: nat := 0;
    for k := 0 to maxPages
      invariant rows + CaptureFrom(command, device, offset, maxPages - k)
             == CaptureFrom(command, device, 0, maxPages)
    {
      var page := device(offset);
      assert FollowsNext(command, page, offset) ==>
          var rest := CaptureFrom(command, device, page.nextOffset.i, maxPages - k - 1);
          rows + [page] + rest == rows + ([page] + rest);
      rows := rows + [page];
      if !CommandOk(page, command) || page.hasOlder != Bool(true) {
        return;
      }
      if !page.nextOffset.Int? || page.nextOffset.i <= offset {
        return;
      }
      offset := page.nextOffset.i;
    }
  }

  // ----- an honest device

  function Min(a: nat, b: nat): nat { if a < b then a else b }

  /** The part of a page that depends on its offset. */
  predicate ServesSlice(command: Command, rows: seq<Dict>, size: nat, page: Page, offset: nat) {
    && CommandOk(page, command)
    && page.offset == Int(offset)
    && PageEntries(page) == rows[Min(offset, |rows|)..Min(offset + size, |rows|)]
    && page.hasOlder == Bool(offset + size < |rows|)
    && (offset + size < |rows| ==> page.nextOffset == Int(offset + size))
  }

  /** Each page of the device is the slice at its offset. */
  ghost predicate ServesSlices(command: Command, rows: seq<Dict>, size: nat, device: Device) {
    forall at: nat :: ServesSlice(command, rows, size, device(at), at)
  }

  /** No page raises an error of its own, and all carry the same metadata. */
  ghost predicate ServesClean(command: Command, device: Device) {
    forall at: nat :: PageClean(command, device(at)) && SameMetadata(command, device(at), device(0))
  }

  /** Pages of `size` rows over one stable, consistent store. */
  ghost predicate Honest(command: Command, rows: seq<Dict>, size: nat, device: Device) {
    && size > 0
    && ServesSlices(command, rows, size, device)
    && ServesClean(command, device)
    && RowsConsistent(command, device(0), rows)
  }

  lemma {:induction false} CleanFromEach(command: Command, pages: seq<Page>)
    requires forall i | 0 <= i < |pages| :: PageClean(command, pages[i]) && SameMetadata(command, pages[i], pages[0])
    ensures PagesClean(command, pages)
  {
    if |pages| > 1 {
      CleanFromEach(command, pages[..|pages| - 1]);
    } else if |pages| == 1 {
      assert pages[..0] == [];
    }
  }

  /** The pages at multiples of the page size, until the store or the budget ends. */
  function Slices(device: Device, total: nat, size: nat, offset: nat, budget: nat): seq<Page>
    decreases budget
  {
    if budget == 0 then []
    else if budget == 1 || offset + size >= total then [device(offset)]
    else [device(offset)] + Slices(device, total, size, offset + size, budget - 1)
  }

  /** A page that leads to the next offset: the capture goes on there. */
  lemma CaptureGoesOn(command: Command, device: Device, offset: nat, next: nat, budget: nat)
    requires budget > 0 && CommandOk(device(offset), command)
    requires device(offset).hasOlder == Bool(true) && device(offset).nextOffset == Int(next) && offset < next
    ensures CaptureFrom(command, device, offset, budget)
         == [device(offset)] + (if budget == 1 then [] else CaptureFrom(command, device, next, budget - 1))
  {
  }

  lemma CaptureEnds(command: Command, device: Device, offset: nat, budget: nat)
    requires budget > 0 && CommandOk(device(offset), command) && device(offset).hasOlder == Bool(false)
    ensures CaptureFrom(command, device, offset, budget) == [device(offset)]
  {
  }

  lemma {:induction false} HonestCaptureIsSlices(
    command: Command, rows: seq<Dict>, size: nat, device: Device, offset: nat, budget: nat)
    requires size > 0 && budget > 0 && offset <= |rows|
    requires ServesSlices(command, rows, size, device)
    ensures CaptureFrom(command, device, offset, budget) == Slices(device, |rows|, size, offset, budget)
    decreases budget
  {
    assert ServesSlice(command, rows, size, device(offset), offset);
    if offset + size < |rows| {
      CaptureGoesOn(command, device, offset, offset + size, budget);
      if budget > 1 {
        HonestCaptureIsSlices(command, rows, size, device, offset + size, budget - 1);
      }
    } else {
      CaptureEnds(command, device, offset, budget);
    }
  }

  /** How far `budget` slices reach from an offset. */
  function Reach(offset: nat, size: nat, budget: nat): nat
    decreases budget
  {
    if budget == 0 then offset else Reach(offset + size, size, budget - 1)
  }

  lemma {:induction false} ReachIsProduct(offset: nat, size: nat, budget: nat)
    ensures Reach(offset, size, budget) == offset + budget * size
    decreases budget
  {
    if budget == 0 {
      assert 0 * size == 0;
    } else {
      ReachIsProduct(offset + size, size, budget - 1);
      assert budget * size == (budget - 1) * size + size;
    }
  }

  lemma {:induction false} ReachGrows(offset: nat, size: nat, budget: nat)
    ensures Reach(offset, size, budget) >= offset
    decreases budget
  {
    if budget > 0 { ReachGrows(offset + size, size, budget - 1); }
  }

  lemma {:induction false} EntriesFromFront(first: Page, rest: seq<Page>)
    ensures AllEntries([first] + rest) == PageEntries(first) + AllEntries(rest)
  {
    var pages := [first] + rest;
    var n := |pages| - 1;
    if rest == [] {
      assert pages[..0] == [];
    } else {
      var init, last := rest[..n - 1], rest[n - 1];
      EntriesFromFront(first, init);
      assert pages[..n] == [first] + init && pages[n] == last;
      assert AllEntries(pages) == AllEntries(pages[..n]) + PageEntries(last);
      assert AllEntries(rest) == AllEntries(init) + PageEntries(last);
      Regroup(PageEntries(first), AllEntries(init), PageEntries(last));
    }
  }

  lemma Regroup<T>(a: seq<T>, b: seq<T>, c: seq<T>)
    ensures a + b + c == a + (b + c)
  {
  }

  /** Each page but the last leads to the next. */
  ghost predicate Linked(pages: seq<Page>) {
    forall i | 0 <= i < |pages| - 1 ::
      && pages[i].hasOlder == Bool(true)
      && pages[i].nextOffset == Int(OffsetOf(pages[i + 1]))
      && OffsetOf(pages[i]) < OffsetOf(pages[i + 1])
  }

  lemma LinkedFromFront(first: Page, rest: seq<Page>)
    requires rest != [] && Linked(rest)
    requires first.hasOlder == Bool(true) && first.nextOffset == Int(OffsetOf(rest[0]))
    requires OffsetOf(first) < OffsetOf(rest[0])
    ensures Linked([first] + rest)
  {
    var pages := [first] + rest;
    forall i | 0 <= i < |pages| - 1
      ensures pages[i].hasOlder == Bool(true)
      ensures pages[i].nextOffset == Int(OffsetOf(pages[i + 1]))
      ensures OffsetOf(pages[i]) < OffsetOf(pages[i + 1])
    {
      if i > 0 {
        var k := i - 1;
        assert pages[i] == rest[k] && pages[i + 1] == rest[k + 1];
        assert rest[k].hasOlder == Bool(true);
      }
    }
  }

  /** What one page of an honest device says. */
  lemma HonestPage(command: Command, rows: seq<Dict>, size: nat, page: Page, at: nat)
    requires size > 0 && at <= |rows| && ServesSlice(command, rows, size, page, at)
    ensures OffsetOf(page) == at
    ensures page.hasOlder == Bool(at + size < |rows|)
    ensures at + size < |rows| ==> page.nextOffset == Int(at + size) && PageEntries(page) == rows[at..at + size]
    ensures at + size >= |rows| ==> PageEntries(page) == rows[at..]
  {
  }

  /** What an honest capture from an offset comes to: linked pages, and the whole rest of the store
      exactly when the budget reaches its end. */
  ghost predicate CapturesRest(rows: seq<Dict>, first: Page, pages: seq<Page>, offset: nat, reach: nat)
    requires offset <= |rows|
  {
    && pages != [] && pages[0] == first && Linked(pages)
    && (pages[|pages| - 1].hasOlder == Bool(false) <==> |rows| <= reach)
    && (|rows| <= reach ==> AllEntries(pages) == rows[offset..])
  }

  /** `first` shows the rows from `offset` to `next` and leads to `second`, which starts there. */
  ghost predicate LeadsTo(rows: seq<Dict>, first: Page, second: Page, offset: nat, next: nat)
    requires offset < next < |rows|
  {
    && OffsetOf(first) == offset && OffsetOf(second) == next
    && first.hasOlder == Bool(true) && first.nextOffset == Int(next)
    && PageEntries(first) == rows[offset..next]
  }

  lemma OneMoreSlice(
    rows: seq<Dict>, first: Page, second: Page, rest: seq<Page>, offset: nat, next: nat, reach: nat)
    requires offset < next < |rows| && LeadsTo(rows, first, second, offset, next)
    requires CapturesRest(rows, second, rest, next, reach)
    ensures CapturesRest(rows, first, [first] + rest, offset, reach)
  {
    LinkedFromFront(first, rest);
    var pages := [first] + rest;
    assert pages[|pages| - 1] == rest[|rest| - 1];
    if |rows| <= reach {
      EntriesFromFront(first, rest);
      JoinStretches(rows, offset, next, |rows|);
    }
  }

  lemma JoinStretches<T>(rows: seq<T>, a: nat, b: nat, c: nat)
    requires a <= b <= c <= |rows|
    ensures rows[a..b] + rows[b..c] == rows[a..c]
  {
  }

  lemma LastSlice(command: Command, rows: seq<Dict>, size: nat, page: Page, offset: nat, reach: nat)
    requires size > 0 && offset <= |rows| && ServesSlice(command, rows, size, page, offset)
    requires reach == offset + size || (offset + size >= |rows| && reach >= offset + size)
    ensures CapturesRest(rows, page, [page], offset, reach)
  {
    HonestPage(command, rows, size, page, offset);
    assert AllEntries([page]) == AllEntries([]) + PageEntries(page) by { assert [page][..0] == []; }
  }

  lemma HonestLeads(command: Command, rows: seq<Dict>, size: nat, first: Page, second: Page, offset: nat)
    requires size > 0 && offset + size < |rows|
    requires ServesSlice(command, rows, size, first, offset) && ServesSlice(command, rows, size, second, offset + size)
    ensures LeadsTo(rows, first, second, offset, offset + size)
  {
    HonestPage(command, rows, size, first, offset);
    HonestPage(command, rows, size, second, offset + size);
  }

  lemma SliceThenRest(
    command: Command, rows: seq<Dict>, size: nat, device: Device, offset: nat, rest: seq<Page>, reach: nat)
    requires size > 0 && offset + size < |rows| && ServesSlices(command, rows, size, device)
    requires CapturesRest(rows, device(offset + size), rest, offset + size, reach)
    ensures CapturesRest(rows, device(offset), [device(offset)] + rest, offset, reach)
  {
    HonestLeads(command, rows, size, device(offset), device(offset + size), offset);
    OneMoreSlice(rows, device(offset), device(offset + size), rest, offset, offset + size, reach);
  }

  lemma FinalSlice(command: Command, rows: seq<Dict>, size: nat, device: Device, offset: nat, budget: nat)
    requires size > 0 && budget > 0 && offset <= |rows| && ServesSlices(command, rows, size, device)
    requires budget == 1 || offset + size >= |rows|
    ensures CapturesRest(rows, device(offset), [device(offset)], offset, Reach(offset, size, budget))
  {
    ReachGrows(offset + size, size, budget - 1);
    assert budget == 1 ==> Reach(offset + size, size, 0) == offset + size;
    LastSlice(command, rows, size, device(offset), offset, Reach(offset, size, budget));
  }

  lemma {:induction false} HonestSlices(
    command: Command, rows: seq<Dict>, size: nat, device: Device, offset: nat, budget: nat)
    requires size > 0 && budget > 0 && offset <= |rows| && ServesSlices(command, rows, size, device)
    ensures CapturesRest(
              rows, device(offset), Slices(device, |rows|, size, offset, budget), offset, Reach(offset, size, budget))
    decreases budget
  {
    if budget == 1 || offset + size >= |rows| {
      FinalSlice(command, rows, size, device, offset, budget);
    } else {
      HonestSlices(command, rows, size, device, offset + size, budget - 1);
      SliceThenRest(
        command, rows, size, device, offset, Slices(device, |rows|, size, offset + size, budget - 1),
        Reach(offset, size, budget));
    }
  }

  lemma {:induction false} EachSlice(
    command: Command, device: Device, total: nat, size: nat, offset: nat, budget: nat, i: nat)
    requires i < |Slices(device, total, size, offset, budget)|
    requires ServesClean(command, device)
    ensures var page := Slices(device, total, size, offset, budget)[i];
            PageClean(command, page) && SameMetadata(command, page, device(0))
    decreases budget
  {
    if i > 0 { EachSlice(command, device, total, size, offset + size, budget - 1, i - 1); }
  }

  lemma SlicesClean(command: Command, device: Device, total: nat, size: nat, maxPages: nat)
    requires size > 0 && maxPages > 0
    requires ServesClean(command, device)
    ensures var pages := Slices(device, total, size, 0, maxPages);
            PagesClean(command, pages) && pages[0] == device(0)
  {
    var pages := Slices(device, total, size, 0, maxPages);
    forall i | 0 <= i < |pages| ensures PageClean(command, pages[i]) && SameMetadata(command, pages[i], device(0)) {
      EachSlice(command, device, total, size, 0, maxPages, i);
    }
    CleanFromEach(command, pages);
  }

  lemma HonestPagesInOrder(command: Command, rows: seq<Dict>, size: nat, device: Device, maxPages: nat)
    requires size > 0 && maxPages > 0
    requires ServesSlices(command, rows, size, device)
    ensures var pages := CaptureFrom(command, device, 0, maxPages);
            && pages == Slices(device, |rows|, size, 0, maxPages) && pages != []
            && Consecutive(pages)
            && (pages[|pages| - 1].hasOlder == Bool(false) <==> |rows| <= maxPages * size)
            && (|rows| <= maxPages * size ==> AllEntries(pages) == rows)
  {
    HonestCaptureIsSlices(command, rows, size, device, 0, maxPages);
    HonestSlices(command, rows, size, device, 0, maxPages);
    ReachIsProduct(0, size, maxPages);
    HonestPage(command, rows, size, device(0), 0);
    assert rows[0..] == rows;
  }

  /** An honest device is captured without error exactly when its store fits the page budget,
      and then every row of the store is captured. */
  lemma HonestCaptureAcceptedIff(command: Command, rows: seq<Dict>, size: nat, device: Device, maxPages: nat)
    requires Honest(command, rows, size, device) && maxPages > 0
    ensures Accepts(command, CaptureFrom(command, device, 0, maxPages)) <==> |rows| <= maxPages * size
    ensures |rows| <= maxPages * size ==> AllEntries(CaptureFrom(command, device, 0, maxPages)) == rows
  {
    HonestPagesInOrder(command, rows, size, device, maxPages);
    SlicesClean(command, device, |rows|, size, maxPages);
  }
}
