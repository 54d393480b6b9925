/** Paged capture of a tracker list: pages are read until one is empty
    (scripts/capture_core_github_defects_d1l.py). */
module TrackerPages {
  import opened Common
  import opened Json
  import opened Text

  type Bytes = seq<int>
  type Rows = seq<Dict>

  datatype CaptureError =
    | FetchFailed | InvalidJson | PageTooLong | InvalidId | DuplicateId | TooManyPages | IssuesChanged

  datatype Result<T> = Ok(value: T) | Err(error: CaptureError)

  datatype Page = Page(page: nat, endpoint: string, raw: Bytes, items: Rows)

  const PAGE_SIZE: nat := 100
  const MAX_PAGES: nat := 10_000

  /** What the API answers to each page number asked for, and the JSON decoder. */
  datatype Source = Source(fetch: nat -> Option<Bytes>, parse: Bytes -> Option<Value>)

  function PageEndpoint(base: string, page: nat): string {
    base + (if '?' in base then "&" else "?") + "per_page=" + Decimal(PAGE_SIZE) + "&page=" + Decimal(page)
  }

  // ----- one answer

  predicate AllObjects(values: seq<Value>) {
    forall i | 0 <= i < |values| :: values[i].Obj?
  }

  function RowsIn(values: seq<Value>): Rows {
    seq(|values|, i requires 0 <= i < |values| => Fields(values[i]))
  }

  /** `_json_array`: a decoded list of objects. */
  function Decoded(source: Source, raw: Bytes): Option<Rows> {
    var value := source.parse(raw);
    if value.Some? && value.value.Arr? && AllObjects(value.value.items) then Some(RowsIn(value.value.items)) else None
  }

  /** The rows of page `p`, when the API answers with a list of objects. */
  function Answer(source: Source, p: nat): Option<Rows> {
    var raw := source.fetch(p);
    if raw.None? then None else Decoded(source, raw.value)
  }

  /** `item_id` is an integer, not a boolean, and positive. */
  predicate IdValid(row: Dict) {
    Get(row, "id").Int? && Get(row, "id").i > 0
  }

  function Id(row: Dict): int {
    if Get(row, "id").Int? then Get(row, "id").i else 0
  }

  function Ids(rows: Rows): set<int> {
    set i | 0 <= i < |rows| :: Id(rows[i])
  }

  ghost predicate IdsDistinct(rows: Rows) {
    forall i, j | 0 <= i < j < |rows| :: Id(rows[i]) != Id(rows[j])
  }

  ghost predicate IdsValid(rows: Rows) {
    forall i | 0 <= i < |rows| :: IdValid(rows[i])
  }

  ghost predicate GoodIds(rows: Rows) {
    IdsValid(rows) && IdsDistinct(rows)
  }

  lemma GoodIdsPrefix(a: Rows, b: Rows)
    requires GoodIds(a + b)
    ensures GoodIds(a) && GoodIds(b)
    ensures forall j | 0 <= j < |b| :: Id(b[j]) !in Ids(a)
  {
    var all := a + b;
    assert forall i | 0 <= i < |a| :: a[i] == all[i];
    assert forall j | 0 <= j < |b| :: b[j] == all[|a| + j];
  }

  lemma GoodIdsAppend(a: Rows, row: Dict)
    requires GoodIds(a) && IdValid(row) && Id(row) !in Ids(a)
    ensures GoodIds(a + [row]) && Ids(a + [row]) == Ids(a) + {Id(row)}
  {
    var all := a + [row];
    assert forall i | 0 <= i < |a| :: all[i] == a[i] && Id(a[i]) in Ids(a);
    assert all[|a|] == row;
    forall id ensures id in Ids(all) <==> id in Ids(a) + {Id(row)} {
      if id in Ids(a) { var i :| 0 <= i < |a| && Id(a[i]) == id; assert all[i] == a[i]; }
    }
  }

  // ----- all answers

  /** The rows of the first `n` pages. */
  function Gathered(source: Source, n: nat): Rows {
    if n == 0 then []
    else Gathered(source, n - 1) + (if Answer(source, n).Some? then Answer(source, n).value else [])
  }

  /** Pages 1 to n are lists of at most 100 objects, all ids positive and distinct, and exactly the
      last page is empty. */
  ghost predicate CompleteAt(source: Source, n: nat) {
    && n > 0
    && (forall p | 1 <= p <= n :: Answer(source, p).Some? && |Answer(source, p).value| <= PAGE_SIZE)
    && (forall p | 1 <= p < n :: Answer(source, p).value != [])
    && Answer(source, n).value == []
    && GoodIds(Gathered(source, n))
  }

  /** At most one page number completes a capture. */
  lemma CompleteOnce(source: Source, m: nat, n: nat)
    requires CompleteAt(source, m) && CompleteAt(source, n)
    ensures m == n
  {
  }

  predicate IsPage(source: Source, base: string, p: nat, page: Page) {
    && page.page == p && page.endpoint == PageEndpoint(base, p)
    && source.fetch(p) == Some(page.raw)
    && Answer(source, p) == Some(page.items)
  }

  function Flatten(pages: seq<Page>): Rows {
    if pages == [] then [] else Flatten(pages[..|pages| - 1]) + pages[|pages| - 1].items
  }

  lemma {:induction false} FlattenGathered(source: Source, base: string, pages: seq<Page>)
    requires forall k | 0 <= k < |pages| :: IsPage(source, base, k + 1, pages[k])
    ensures Flatten(pages) == Gathered(source, |pages|)
  {
    if pages != [] {
      FlattenGathered(source, base, pages[..|pages| - 1]);
    }
  }

  lemma {:induction false} GatheredGrows(source: Source, m: nat, n: nat)
    requires m <= n
    ensures Gathered(source, m) <= Gathered(source, n)
    decreases n
  {
    if m < n { GatheredGrows(source, m, n - 1); }
  }

  /** The ids of one page against those seen before. */
  method CheckIds(items: Rows, before: Rows, seen: set<int>) returns (error: Option<CaptureError>, newSeen: set<int>)
    requires GoodIds(before) && seen == Ids(before)
    ensures error.None? <==> GoodIds(before + items)
    ensures error.None? ==> newSeen == Ids(before + items)
  {
    newSeen := seen;
    assert before + items[..0] == before;
    for k := 0 to |items|
      invariant GoodIds(before + items[..k]) && newSeen == Ids(before + items[..k])
    {
      var row := items[k];
      assert before + items[..k + 1] == before + items[..k] + [row];
      assert before + items == before + items[..k] + items[k..];
      if GoodIds(before + items) {
        GoodIdsPrefix(before + items[..k], items[k..]);
        assert items[k..][0] == row;
      }
      if !IdValid(row) || Id(row) in newSeen {
        return Some(if !IdValid(row) then InvalidId else DuplicateId), newSeen;
      }
      GoodIdsAppend(before + items[..k], row);
      newSeen := newSeen + {Id(row)};
    }
    assert items[..|items|] == items;
    error := None;
  }

  lemma GatheredGood(source: Source, m: nat, n: nat)
    requires m <= n && GoodIds(Gathered(source, n))
    ensures GoodIds(Gathered(source, m))
  {
    GatheredGrows(source, m, n);
    var all, first := Gathered(source, n), Gathered(source, m);
    assert all == first + all[|first|..];
    GoodIdsPrefix(first, all[|first|..]);
  }

  /** Some number of pages within the limit completes the capture. */
  ghost predicate Capturable(source: Source, limit: nat) {
    exists n | 1 <= n <= limit :: CompleteAt(source, n)
  }

  /** A page at which the capture stops with an error rules out every number of pages. */
  lemma StopsHere(source: Source, p: nat, limit: nat)
    requires 1 <= p
    requires forall q | 1 <= q < p :: Answer(source, q).Some? && Answer(source, q).value != []
    requires Answer(source, p).None? || |Answer(source, p).value| > PAGE_SIZE || !GoodIds(Gathered(source, p))
    ensures !Capturable(source, limit)
  {
    forall n | 1 <= n <= limit ensures !CompleteAt(source, n) {
      if CompleteAt(source, n) && n >= p {
        GatheredGood(source, p, n);
      }
    }
  }

  method CapturePages(source: Source, base: string, limit: nat) returns (r: Result<seq<Page>>)
    ensures r.Ok? <==> Capturable(source, limit)
    ensures r.Ok? ==> CompleteAt(source, |r.value|) && |r.value| <= limit
    ensures r.Ok? ==> forall k | 0 <= k < |r.value| :: IsPage(source, base, k + 1, r.value[k])
    ensures r.Ok? ==> Flatten(r.value) == Gathered(source, |r.value|)
  {
    var pages: seq<Page>, seen: set<int> := [], {};
    var p: nat := 1;
    while p <= limit
      invariant 1 <= p <= limit + 1 && |pages| == p - 1
      invariant forall k | 0 <= k < |pages| :: IsPage(source, base, k + 1, pages[k])
      invariant forall q | 1 <= q < p :: Answer(source, q).Some? && 0 < |Answer(source, q).value| <= PAGE_SIZE
      invariant GoodIds(Gathered(source, p - 1)) && seen == Ids(Gathered(source, p - 1))
    {
      var raw := source.fetch(p);
      if raw.None? {
        StopsHere(source, p, limit);
        return Err(FetchFailed);
      }
      var items := Decoded(source, raw.value);
      if items.None? {
        StopsHere(source, p, limit);
        return Err(InvalidJson);
      }
      if |items.value| > PAGE_SIZE {
        StopsHere(source, p, limit);
        return Err(PageTooLong);
      }
      var error;
      error, seen := CheckIds(items.value, Gathered(source, p - 1), seen);
      if error.Some? {
        StopsHere(source, p, limit);
        return Err(error.value);
      }
      pages := pages + [Page(p, PageEndpoint(base, p), raw.value, items.value)];
      if items.value == [] {
        assert CompleteAt(source, p);
        FlattenGathered(source, base, pages);
        return Ok(pages);
      }
      p := p + 1;
    }
    r := Err(TooManyPages);
  }

  // ----- a list that does not change

  /** The slice of a list that page `p` shows. */
  function PageOf(list: Rows, p: nat): Rows
    requires p >= 1
  {
    var from := PAGE_SIZE * (p - 1);
    if from >= |list| then [] else if |list| <= from + PAGE_SIZE then list[from..] else list[from..from + PAGE_SIZE]
  }

  /** The API serves one list on pages 1 to n. */
  ghost predicate ServesUpTo(source: Source, list: Rows, n: nat) {
    forall p | 1 <= p <= n :: Answer(source, p) == Some(PageOf(list, p))
  }

  /** The API serves one list throughout. */
  ghost predicate Serves(source: Source, list: Rows) {
    forall n :: ServesUpTo(source, list, n)
  }

  /** One page more than needed to show every row. */
  function PagesNeeded(n: nat): nat {
    (n + PAGE_SIZE - 1) / PAGE_SIZE + 1
  }

  lemma {:induction false} GatheredPrefix(source: Source, list: Rows, n: nat)
    requires ServesUpTo(source, list, n)
    ensures Gathered(source, n) == if PAGE_SIZE * n <= |list| then list[..PAGE_SIZE * n] else list
  {
    if n > 0 {
      GatheredPrefix(source, list, n - 1);
      assert Answer(source, n) == Some(PageOf(list, n));
    }
  }

  /** A stable list is complete at exactly one page number. */
  lemma StableCompleteAt(source: Source, list: Rows, n: nat)
    requires Serves(source, list) && GoodIds(list)
    ensures CompleteAt(source, n) <==> n == PagesNeeded(|list|)
    ensures CompleteAt(source, n) ==> Gathered(source, n) == list
  {
    var m := PagesNeeded(|list|);
    assert PAGE_SIZE * (m - 1) >= |list|;
    assert m >= 2 ==> PAGE_SIZE * (m - 2) < |list|;
    assert ServesUpTo(source, list, m);
    GatheredPrefix(source, list, m);
    assert CompleteAt(source, m);
    if CompleteAt(source, n) { CompleteOnce(source, m, n); }
  }

  /** A stable list of rows with distinct positive ids is captured exactly when it has at most
      100 * (limit - 1) rows: 999,900 under `MAX_PAGES`. The capture then has ceil(n/100) + 1 pages
      and holds the whole list. */
  lemma StableCaptureIff(source: Source, list: Rows, limit: nat)
    requires Serves(source, list) && GoodIds(list) && limit > 0
    ensures Capturable(source, limit) <==> |list| <= PAGE_SIZE * (limit - 1)
    ensures limit == MAX_PAGES ==> (Capturable(source, limit) <==> |list| <= 999_900)
    ensures forall n | CompleteAt(source, n) ::
        n == (|list| + PAGE_SIZE - 1) / PAGE_SIZE + 1 && Gathered(source, n) == list
  {
    forall n: nat ensures CompleteAt(source, n) <==> n == PagesNeeded(|list|) {
      StableCompleteAt(source, list, n);
    }
    forall n | CompleteAt(source, n) ensures Gathered(source, n) == list {
      StableCompleteAt(source, list, n);
    }
    assert 1 <= PagesNeeded(|list|);
    assert PagesNeeded(|list|) <= limit <==> |list| <= PAGE_SIZE * (limit - 1);
    assert CompleteAt(source, PagesNeeded(|list|));
  }
}
