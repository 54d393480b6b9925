/** Projection of the two retained pages of a message store around a reflash
    (scripts/core_flash_only_d1l.py). */
module ReflashStores {
  import opened Common
  import opened Json
  import opened Sorting

  datatype Kind = Public | Direct

  const PAGE_ROWS: int := 8
  const CAPACITY: int := 16

  /** The keys read from one captured page: each field is what `.get` returns for its key. */
  datatype StorePage = StorePage(
    entries: Value, filtered: Value, count: Value, capacity: Value, storeCount: Value, retainedCount: Value,
    offset: Value, pageSize: Value, pageCount: Value, hasOlder: Value, nextOffset: Value, totalMatches: Value,
    totalWritten: Value, droppedOldest: Value, scope: Value, epoch: Value, contentRevision: Value,
    previewPresent: Value, previewSeq: Value, persisted: Value, persistence: Value)

  /** Counters of a projected store. Direct messages have no `storeCount`. */
  datatype StoreState = StoreState(
    count: int, capacity: int, storeCount: Option<int>, retainedCount: Value, totalWritten: int,
    droppedOldest: int, epoch: int, contentRevision: int)

  datatype Store = Store(rows: seq<Dict>, state: StoreState)

  // ----- headers

  predicate AtLeast(v: Value, bound: int) {
    v.Int? && v.i >= bound
  }

  predicate HeaderOk(kind: Kind, p: StorePage) {
    && AtLeast(p.count, 0) && p.capacity == Int(CAPACITY) && p.count.i <= CAPACITY
    && (kind.Public? ==> AtLeast(p.storeCount, p.count.i) && p.storeCount.i <= CAPACITY)
    && PyEq(p.retainedCount, p.count)
    && AtLeast(p.totalWritten, if kind.Public? then p.storeCount.i else p.count.i)
    && AtLeast(p.droppedOldest, 0) && AtLeast(p.epoch, 1) && AtLeast(p.contentRevision, 1)
    && (kind.Direct? ==> p.retainedCount.Int?)
  }

  function RowList(p: StorePage): seq<Value> {
    if p.entries.Arr? then p.entries.items else []
  }

  function PageRows(p: StorePage): seq<Dict> {
    seq(|RowList(p)|, i requires 0 <= i < |RowList(p)| => Fields(RowList(p)[i]))
  }

  function ExpectedRows(count: int, offset: int): int {
    if offset == 0 then (if count < PAGE_ROWS then count else PAGE_ROWS)
    else if count > PAGE_ROWS then count - PAGE_ROWS else 0
  }

  /** One page against the header of the first. */
  predicate PageOk(kind: Kind, first: StorePage, p: StorePage, offset: int)
    requires first.count.Int?
  {
    var count := first.count.i;
    var hasOlder := offset == 0 && count > PAGE_ROWS;
    && p.entries.Arr? && (forall i | 0 <= i < |RowList(p)| :: RowList(p)[i].Obj?)
    && p.filtered == Bool(false)
    && PyEq(p.count, first.count) && PyEq(p.capacity, first.capacity)
    && (kind.Public? ==> PyEq(p.storeCount, first.storeCount) && p.scope == Str("shared_all_channels"))
    && PyEq(p.retainedCount, first.retainedCount)
    && PyEq(p.offset, Int(offset)) && PyEq(p.pageSize, Int(PAGE_ROWS))
    && PyEq(p.pageCount, Int(ExpectedRows(count, offset))) && PyEq(p.pageCount, Int(|RowList(p)|))
    && p.hasOlder == Bool(hasOlder)
    && PyEq(p.nextOffset, Int(if hasOlder || offset > 0 then PAGE_ROWS else 0))
    && PyEq(p.totalMatches, first.retainedCount)
    && PyEq(p.totalWritten, first.totalWritten) && PyEq(p.droppedOldest, first.droppedOldest)
    && PyEq(p.epoch, first.epoch) && PyEq(p.contentRevision, first.contentRevision)
    && p.previewPresent == Bool(false) && PyEq(p.previewSeq, Int(0))
    && p.persisted == Bool(true) && PyEq(p.persistence, first.persistence)
  }

  // ----- rows

  predicate RowOk(row: Dict) {
    AtLeast(Get(row, "seq"), 1) && Get(row, "retained") == Bool(true) && Get(row, "volatile_preview") == Bool(false)
  }

  ghost predicate RowsOk(rows: seq<Dict>) {
    && (forall i | 0 <= i < |rows| :: RowOk(rows[i]))
    && (forall i, j | 0 <= i < j < |rows| :: SeqOf(rows[i]) != SeqOf(rows[j]))
  }

  function SeqsOf(rows: seq<Dict>): set<int> {
    set i | 0 <= i < |rows| :: SeqOf(rows[i])
  }

  lemma RowsOkAppend(rows: seq<Dict>, row: Dict)
    requires RowsOk(rows)
    ensures RowsOk(rows + [row]) <==> RowOk(row) && SeqOf(row) !in SeqsOf(rows)
    ensures SeqsOf(rows + [row]) == SeqsOf(rows) + {SeqOf(row)}
  {
    var all := rows + [row];
    assert all[|rows|] == row;
    assert forall i | 0 <= i < |rows| :: all[i] == rows[i] && SeqOf(rows[i]) in SeqsOf(rows);
    forall s ensures s in SeqsOf(all) <==> s in SeqsOf(rows) + {SeqOf(row)} {
      if s in SeqsOf(rows) { var i :| 0 <= i < |rows| && SeqOf(rows[i]) == s; assert all[i] == rows[i]; }
    }
  }

  lemma RowsOkPrefix(a: seq<Dict>, b: seq<Dict>)
    requires RowsOk(a + b)
    ensures RowsOk(a)
  {
    assert forall i | 0 <= i < |a| :: a[i] == (a + b)[i];
  }

  /** The rows of one page, after those of the pages before it. */
  method CheckRows(rows: seq<Dict>, before: seq<Dict>, seen: set<int>) returns (ok: bool, nowSeen: set<int>)
    requires RowsOk(before) && seen == SeqsOf(before)
    ensures ok <==> RowsOk(before + rows)
    ensures ok ==> nowSeen == SeqsOf(before + rows)
  {
    nowSeen := seen;
    assert before + rows[..0] == before;
    for k := 0 to |rows|
      invariant RowsOk(before + rows[..k]) && nowSeen == SeqsOf(before + rows[..k])
    {
      var done := before + rows[..k];
      RowsOkAppend(done, rows[k]);
      assert done + [rows[k]] == before + rows[..k + 1];
      assert before + rows == before + rows[..k + 1] + rows[k + 1..];
      if RowsOk(before + rows) { RowsOkPrefix(before + rows[..k + 1], rows[k + 1..]); }
      if !RowOk(rows[k]) || SeqOf(rows[k]) in nowSeen {
        return false, nowSeen;
      }
      nowSeen := nowSeen + {SeqOf(rows[k])};
    }
    assert rows[..|rows|] == rows;
    ok := true;
  }

  // ----- the projection

  /** `json.dumps` with sorted keys: distinct rows have distinct texts. */
  type CanonText = Dict -> string

  function CanonLess(canon: CanonText): (Dict, Dict) -> bool {
    (a: Dict, b: Dict) => TextLess(canon(a), canon(b))
  }

  /** `clean` stands for the persistence and card flags of the store. */
  ghost predicate StoreAccepted(kind: Kind, first: StorePage, second: StorePage, clean: bool) {
    && HeaderOk(kind, first)
    && PageOk(kind, first, first, 0) && PageOk(kind, first, second, PAGE_ROWS)
    && RowsOk(PageRows(first) + PageRows(second))
    && clean
  }

  function StateOf(kind: Kind, p: StorePage): StoreState
    requires HeaderOk(kind, p)
  {
    StoreState(
      p.count.i, CAPACITY, if kind.Public? then Some(p.storeCount.i) else None, p.retainedCount,
      p.totalWritten.i, p.droppedOldest.i, p.epoch.i, p.contentRevision.i)
  }

  method ProjectStore(kind: Kind, first: StorePage, second: StorePage, clean: bool, canon: CanonText)
    returns (r: Option<Store>)
    ensures r.Some? <==> StoreAccepted(kind, first, second, clean)
    ensures r.Some? ==>
              r.value == Store(SortBy(PageRows(first) + PageRows(second), CanonLess(canon)), StateOf(kind, first))
    ensures r.Some? ==> |r.value.rows| == r.value.state.count
  {
    if !HeaderOk(kind, first) {
      return None;
    }
    var rows: seq<Dict>, seen: set<int> := [], {};
    if !PageOk(kind, first, first, 0) {
      return None;
    }
    var newer, older := PageRows(first), PageRows(second);
    var ok;
    ok, seen := CheckRows(newer, rows, seen);
    assert [] + newer == newer;
    if RowsOk(newer + older) { RowsOkPrefix(newer, older); }
    if !ok {
      return None;
    }
    rows := rows + newer;
    if !PageOk(kind, first, second, PAGE_ROWS) {
      return None;
    }
    ok, seen := CheckRows(older, rows, seen);
    if !ok || !clean {
      return None;
    }
    rows := rows + older;
    PageCounts(kind, first, second);
    MembersFromMultiset(rows, SortBy(rows, CanonLess(canon)));
    r := Some(Store(SortBy(rows, CanonLess(canon)), StateOf(kind, first)));
  }

  /** The two pages hold as many rows as the store says it retains. */
  lemma PageCounts(kind: Kind, first: StorePage, second: StorePage)
    requires HeaderOk(kind, first) && PageOk(kind, first, first, 0) && PageOk(kind, first, second, PAGE_ROWS)
    ensures |PageRows(first) + PageRows(second)| == first.count.i
  {
    EqualsOneInteger(first.pageCount, ExpectedRows(first.count.i, 0), |RowList(first)|);
    EqualsOneInteger(second.pageCount, ExpectedRows(first.count.i, PAGE_ROWS), |RowList(second)|);
  }

  /** What every projected store satisfies. */
  ghost predicate ValidStore(kind: Kind, s: Store, canon: CanonText) {
    && |s.rows| == s.state.count <= CAPACITY
    && StrictlySorted(s.rows, CanonLess(canon))
    && PyEq(s.state.retainedCount, Int(s.state.count))
    && (kind.Direct? ==> s.state.retainedCount.Int?)
    && (kind.Public? <==> s.state.storeCount.Some?)
  }

  lemma CanonComparesByKey(canon: CanonText)
    ensures ComparesByKey(CanonLess(canon))
  {
    TextLessComparesByKey();
    var less := CanonLess(canon);
    forall x, y ensures less(x, y) ==> !less(y, x) { TextLessTrichotomy(canon(x), canon(y)); }
    forall x, y, z | !less(y, x) && !less(z, y) ensures !less(z, x) {
      assert !TextLess(canon(y), canon(x)) && !TextLess(canon(z), canon(y));
    }
  }

  lemma ProjectedIsValid(kind: Kind, first: StorePage, second: StorePage, clean: bool, canon: CanonText)
    requires StoreAccepted(kind, first, second, clean)
    requires var rows := PageRows(first) + PageRows(second); NoCollision(canon, Members(rows), Members(rows))
    ensures ValidStore(
              kind, Store(SortBy(PageRows(first) + PageRows(second), CanonLess(canon)), StateOf(kind, first)), canon)
  {
    var rows := PageRows(first) + PageRows(second);
    var less := CanonLess(canon);
    PageCounts(kind, first, second);
    CanonComparesByKey(canon);
    forall i, j | 0 <= i < j < |rows| ensures less(rows[i], rows[j]) || less(rows[j], rows[i]) {
      assert rows[i] != rows[j] && rows[i] in Members(rows) && rows[j] in Members(rows);
      TextLessTrichotomy(canon(rows[i]), canon(rows[j]));
    }
    SortByStrict(rows, less);
    MembersFromMultiset(rows, SortBy(rows, less));
  }
}
