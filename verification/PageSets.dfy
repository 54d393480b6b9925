/** Writing captured pages as raw files with a summary, and recomputing the capture from them
    (scripts/capture_core_github_defects_d1l.py). */
module PageSets {
  import opened Common
  import opened Json
  import opened Text
  import opened TrackerPages

  /** Path, size and digest of one retained file. */
  datatype FileRow = FileRow(path: string, size: int, sha256: string)

  datatype PageRow = PageRow(page: int, endpoint: string, itemCount: int, response: FileRow)

  datatype PageSet = PageSet(
    complete: bool, emptySentinelPage: int, pageCount: int, itemCount: int, pages: seq<PageRow>)

  type Disk = map<string, Bytes>

  type Digest = Bytes -> string

  datatype SetError =
    | FileExists | SetMissing | SetIncomplete | OrderInvalid | FileInvalid | PageInvalid | SummaryMismatch

  datatype SetResult<T> = Done(value: T) | Refused(error: SetError)

  // ----- names

  function PagePath(dir: string, prefix: string, page: nat): string {
    dir + "/" + prefix + "_page_" + Padded(page, 4) + "_raw.json"
  }

  lemma PagePathInjective(dir: string, prefix: string, m: nat, n: nat)
    requires PagePath(dir, prefix, m) == PagePath(dir, prefix, n)
    ensures m == n
  {
    var head := dir + "/" + prefix + "_page_";
    CancelSuffix(head + Padded(m, 4), head + Padded(n, 4), "_raw.json");
    CancelPrefix(head, Padded(m, 4), Padded(n, 4));
    PaddedInjective(m, n, 4);
  }

  /** Neither text starts with the other. */
  predicate Diverge(a: string, b: string) {
    exists i | 0 <= i < |a| && i < |b| :: a[i] != b[i]
  }

  lemma DivergingPaths(dir: string, a: string, b: string, m: nat, n: nat)
    requires Diverge(a + "_page_", b + "_page_")
    ensures PagePath(dir, a, m) != PagePath(dir, b, n)
  {
    var x, y := a + "_page_", b + "_page_";
    var i :| 0 <= i < |x| && i < |y| && x[i] != y[i];
    var head := dir + "/";
    assert PagePath(dir, a, m) == head + x + Padded(m, 4) + "_raw.json";
    assert PagePath(dir, b, n) == head + y + Padded(n, 4) + "_raw.json";
    assert PagePath(dir, a, m)[|head| + i] == x[i];
    assert PagePath(dir, b, n)[|head| + i] == y[i];
  }

  /** The three page sets of a snapshot never share a file. */
  lemma SnapshotPrefixesDiverge()
    ensures Diverge("issues" + "_page_", "issue_comments" + "_page_")
    ensures Diverge("issues" + "_page_", "issues_verification" + "_page_")
    ensures Diverge("issue_comments" + "_page_", "issues_verification" + "_page_")
  {
    assert ("issues" + "_page_")[5] != ("issue_comments" + "_page_")[5];
    assert ("issues" + "_page_")[7] != ("issues_verification" + "_page_")[7];
    assert ("issue_comments" + "_page_")[5] != ("issues_verification" + "_page_")[5];
  }

  // ----- writing

  function FileRowOf(path: string, raw: Bytes, sha256: Digest): FileRow {
    FileRow(path, |raw|, sha256(raw))
  }

  function WrittenRow(dir: string, prefix: string, page: Page, sha256: Digest): PageRow {
    PageRow(page.page, page.endpoint, |page.items|, FileRowOf(PagePath(dir, prefix, page.page), page.raw, sha256))
  }

  function WrittenRows(dir: string, prefix: string, pages: seq<Page>, sha256: Digest): seq<PageRow> {
    seq(|pages|, i requires 0 <= i < |pages| => WrittenRow(dir, prefix, pages[i], sha256))
  }

  function ItemTotal(rows: seq<PageRow>): int {
    if rows == [] then 0 else ItemTotal(rows[..|rows| - 1]) + rows[|rows| - 1].itemCount
  }

  function Summary(rows: seq<PageRow>): PageSet {
    PageSet(true, |rows|, |rows|, ItemTotal(rows), rows)
  }

  /** Numbered from one. */
  predicate PagesNumbered(pages: seq<Page>) {
    forall i | 0 <= i < |pages| :: pages[i].page == i + 1
  }

  predicate RowsNumbered(rows: seq<PageRow>) {
    forall i | 0 <= i < |rows| :: rows[i].page == i + 1
  }

  lemma WrittenRowsNumbered(dir: string, prefix: string, pages: seq<Page>, sha256: Digest)
    ensures RowsNumbered(WrittenRows(dir, prefix, pages, sha256)) <==> PagesNumbered(pages)
  {
    var rows := WrittenRows(dir, prefix, pages, sha256);
    if RowsNumbered(rows) {
      forall i | 0 <= i < |pages| ensures pages[i].page == i + 1 { assert rows[i].page == i + 1; }
    }
  }

  /** The files of the pages. */
  function PageFiles(dir: string, prefix: string, pages: seq<Page>): Disk {
    if pages == [] then map[]
    else
      var last := pages[|pages| - 1];
      PageFiles(dir, prefix, pages[..|pages| - 1])[PagePath(dir, prefix, last.page) := last.raw]
  }

  lemma {:induction false} PageNotYetWritten(dir: string, prefix: string, pages: seq<Page>, n: nat)
    requires forall i | 0 <= i < |pages| :: pages[i].page != n
    ensures PagePath(dir, prefix, n) !in PageFiles(dir, prefix, pages)
  {
    if pages != [] {
      PageNotYetWritten(dir, prefix, pages[..|pages| - 1], n);
      var last := pages[|pages| - 1];
      if PagePath(dir, prefix, last.page) == PagePath(dir, prefix, n) {
        PagePathInjective(dir, prefix, last.page, n);
      }
    }
  }

  lemma {:induction false} PageFilesHold(dir: string, prefix: string, pages: seq<Page>, i: nat)
    requires PagesNumbered(pages) && i < |pages|
    ensures PagePath(dir, prefix, i + 1) in PageFiles(dir, prefix, pages)
    ensures PageFiles(dir, prefix, pages)[PagePath(dir, prefix, i + 1)] == pages[i].raw
  {
    var last := pages[|pages| - 1];
    if i < |pages| - 1 {
      PageFilesHold(dir, prefix, pages[..|pages| - 1], i);
      if PagePath(dir, prefix, last.page) == PagePath(dir, prefix, i + 1) {
        PagePathInjective(dir, prefix, last.page, i + 1);
      }
    }
  }

  /** One more file, after the first k pages. */
  lemma AddPageFile(before: Disk, dir: string, prefix: string, pages: seq<Page>, k: nat)
    requires k < |pages|
    ensures var path := PagePath(dir, prefix, pages[k].page);
            && PageFiles(dir, prefix, pages[..k + 1]).Keys == PageFiles(dir, prefix, pages[..k]).Keys + {path}
            && (before + PageFiles(dir, prefix, pages[..k]))[path := pages[k].raw]
               == before + PageFiles(dir, prefix, pages[..k + 1])
  {
    assert pages[..k + 1][..k] == pages[..k];
  }

  /** The first `k` pages have been added to what was there, in files of their own. */
  ghost predicate Added(before: Disk, files: Disk, dir: string, prefix: string, pages: seq<Page>, k: nat)
    requires k <= |pages|
  {
    && files == before + PageFiles(dir, prefix, pages[..k])
    && PageFiles(dir, prefix, pages[..k]).Keys !! before.Keys
  }

  lemma PageAdded(before: Disk, files: Disk, dir: string, prefix: string, pages: seq<Page>, k: nat)
    requires k < |pages| && Added(before, files, dir, prefix, pages, k)
    requires PagePath(dir, prefix, pages[k].page) !in files
    ensures Added(before, files[PagePath(dir, prefix, pages[k].page) := pages[k].raw], dir, prefix, pages, k + 1)
  {
    AddPageFile(before, dir, prefix, pages, k);
  }

  /** A file that exists when its page is due was there before the first page. */
  lemma PageWasThere(before: Disk, files: Disk, dir: string, prefix: string, pages: seq<Page>, k: nat)
    requires k < |pages| && Added(before, files, dir, prefix, pages, k) && PagesNumbered(pages)
    requires PagePath(dir, prefix, pages[k].page) in files
    ensures !(PageFiles(dir, prefix, pages).Keys !! before.Keys)
  {
    NumberedPageIsNew(dir, prefix, pages, k);
    assert PagePath(dir, prefix, k + 1) in PageFiles(dir, prefix, pages).Keys * before.Keys;
  }

  /** Pages numbered from one never repeat a file. */
  lemma NumberedPageIsNew(dir: string, prefix: string, pages: seq<Page>, k: nat)
    requires PagesNumbered(pages) && k < |pages|
    ensures PagePath(dir, prefix, k + 1) !in PageFiles(dir, prefix, pages[..k])
    ensures PagePath(dir, prefix, k + 1) in PageFiles(dir, prefix, pages)
  {
    PageNotYetWritten(dir, prefix, pages[..k], k + 1);
    PageFilesHold(dir, prefix, pages, k);
  }

  /** The evidence directory, while it is filled. */
  class Evidence {
    var files: Disk

    constructor ()
      ensures files == map[]
    {
      files := map[];
    }

    /** Exclusive creation: an existing file is refused and kept. */
    method WriteRaw(path: string, raw: Bytes, sha256: Digest) returns (r: SetResult<FileRow>)
      modifies this
      ensures r.Done? <==> path !in old(files)
      ensures r.Done? ==> r.value == FileRowOf(path, raw, sha256) && files == old(files)[path := raw]
      ensures r.Refused? ==> files == old(files)
    {
      if path in files {
        return Refused(FileExists);
      }
      files := files[path := raw];
      r := Done(FileRow(path, |raw|, sha256(raw)));
    }

    /** The loop: one file after the other, up to the first that exists. */
    method WritePages(dir: string, prefix: string, pages: seq<Page>, sha256: Digest)
      returns (r: SetResult<seq<PageRow>>)
      modifies this
      ensures r.Done? ==> r.value == WrittenRows(dir, prefix, pages, sha256)
      ensures r.Done? ==> files == old(files) + PageFiles(dir, prefix, pages)
      ensures r.Done? ==> PageFiles(dir, prefix, pages).Keys !! old(files).Keys
      ensures r.Refused? && PagesNumbered(pages) ==> !(PageFiles(dir, prefix, pages).Keys !! old(files).Keys)
      ensures r.Refused? ==> exists k | 0 <= k <= |pages| :: files == old(files) + PageFiles(dir, prefix, pages[..k])
    {
      var rows: seq<PageRow> := [];
      assert old(files) + map[] == files;
      for k := 0 to |pages|
        invariant rows == WrittenRows(dir, prefix, pages[..k], sha256)
        invariant Added(old(files), files, dir, prefix, pages, k)
      {
        var page := pages[k];
        ghost var present := files;
        var written := WriteRaw(PagePath(dir, prefix, page.page), page.raw, sha256);
        if written.Done? {
          PageAdded(old(files), present, dir, prefix, pages, k);
        } else {
          if PagesNumbered(pages) { PageWasThere(old(files), present, dir, prefix, pages, k); }
          return Refused(written.error);
        }
        rows := rows + [PageRow(page.page, page.endpoint, |page.items|, written.value)];
      }
      assert pages[..|pages|] == pages;
      r := Done(rows);
    }

    /** All pages are written; then the set must be numbered from one and end in its empty page. */
    method WritePageSet(dir: string, prefix: string, pages: seq<Page>, sha256: Digest) returns (r: SetResult<PageSet>)
      modifies this
      ensures r.Done? <==>
              && PagesNumbered(pages)
              && PageFiles(dir, prefix, pages).Keys !! old(files).Keys
              && pages != [] && pages[|pages| - 1].items == []
      ensures r.Done? ==> r.value == Summary(WrittenRows(dir, prefix, pages, sha256))
      ensures r.Done? ==> files == old(files) + PageFiles(dir, prefix, pages)
      ensures r.Refused? ==> exists k | 0 <= k <= |pages| :: files == old(files) + PageFiles(dir, prefix, pages[..k])
    {
      var rows := WritePages(dir, prefix, pages, sha256);
      if rows.Refused? {
        return Refused(rows.error);
      }
      WrittenRowsNumbered(dir, prefix, pages, sha256);
      if !RowsNumbered(rows.value) || rows.value == [] || rows.value[|rows.value| - 1].itemCount != 0 {
        assert pages[..|pages|] == pages;
        return Refused(SetMissing);
      }
      r := Done(Summary(rows.value));
    }
  }

  // ----- reading back

  /** The file lies directly in the directory. */
  predicate Beside(path: string, dir: string) {
    && |path| > |dir| + 1 && path[..|dir|] == dir && path[|dir|] == '/'
    && '/' !in path[|dir| + 1..] && '\\' !in path
  }

  predicate FileAccepted(row: FileRow, disk: Disk, dir: string, seen: set<string>, sha256: Digest) {
    && Beside(row.path, dir)
    && row.path !in seen
    && row.path in disk
    && row == FileRowOf(row.path, disk[row.path], sha256)
  }

  /** The pages the listed files hold, as a source of pages. */
  function FilesSource(pages: seq<PageRow>, disk: Disk, parse: Bytes -> Option<Value>): Source {
    Source(
      p => if 1 <= p <= |pages| && pages[p - 1].response.path in disk
           then Some(disk[pages[p - 1].response.path]) else None,
      parse)
  }

  function PathsOf(rows: seq<PageRow>): set<string> {
    set i | 0 <= i < |rows| :: rows[i].response.path
  }

  predicate RowAccepted(
    pages: seq<PageRow>, k: nat, source: Source, disk: Disk, dir: string, base: string, seen: set<string>,
    sha256: Digest)
    requires k < |pages|
  {
    && pages[k].page == k + 1
    && pages[k].endpoint == PageEndpoint(base, k + 1)
    && FileAccepted(pages[k].response, disk, dir, seen + PathsOf(pages[..k]), sha256)
    && Answer(source, k + 1).Some?
    && pages[k].itemCount == |Answer(source, k + 1).value|
  }

  /** The files form a complete capture and the rows and the summary describe it. */
  ghost predicate SetAccepted(
    pageSet: PageSet, source: Source, disk: Disk, dir: string, base: string, seen: set<string>, sha256: Digest)
  {
    && CompleteAt(source, |pageSet.pages|)
    && (forall k | 0 <= k < |pageSet.pages| :: RowAccepted(pageSet.pages, k, source, disk, dir, base, seen, sha256))
    && pageSet == PageSet(true, |pageSet.pages|, |pageSet.pages|, |Gathered(source, |pageSet.pages|)|, pageSet.pages)
  }

  /** An accepted row whose rows number at most 100, none only on the last page. */
  predicate PageAccepted(
    pages: seq<PageRow>, k: nat, source: Source, disk: Disk, dir: string, base: string, seen: set<string>,
    sha256: Digest)
    requires k < |pages|
  {
    && RowAccepted(pages, k, source, disk, dir, base, seen, sha256)
    && |Answer(source, k + 1).value| <= PAGE_SIZE
    && (k + 1 < |pages| ==> Answer(source, k + 1).value != [])
  }

  ghost predicate EachAccepted(
    pages: seq<PageRow>, n: nat, source: Source, disk: Disk, dir: string, base: string, seen: set<string>,
    sha256: Digest)
  {
    n <= |pages| && forall k | 0 <= k < n :: PageAccepted(pages, k, source, disk, dir, base, seen, sha256)
  }

  /** Page by page. */
  lemma SetAcceptedGives(
    pageSet: PageSet, source: Source, disk: Disk, dir: string, base: string, seen: set<string>, sha256: Digest, k: nat)
    requires SetAccepted(pageSet, source, disk, dir, base, seen, sha256) && k < |pageSet.pages|
    ensures PageAccepted(pageSet.pages, k, source, disk, dir, base, seen, sha256)
    ensures k == |pageSet.pages| - 1 ==> pageSet.pages[k].itemCount == 0
  {
    assert RowAccepted(pageSet.pages, k, source, disk, dir, base, seen, sha256);
    assert Answer(source, k + 1).Some?;
  }

  lemma SetAcceptedFrom(
    pageSet: PageSet, source: Source, disk: Disk, dir: string, base: string, seen: set<string>, sha256: Digest)
    requires pageSet.pages != [] && pageSet.pages[|pageSet.pages| - 1].itemCount == 0
    requires EachAccepted(pageSet.pages, |pageSet.pages|, source, disk, dir, base, seen, sha256)
    requires GoodIds(Gathered(source, |pageSet.pages|))
    ensures CompleteAt(source, |pageSet.pages|)
    ensures forall k | 0 <= k < |pageSet.pages| :: RowAccepted(pageSet.pages, k, source, disk, dir, base, seen, sha256)
  {
    var pages := pageSet.pages;
    forall k | 0 <= k < |pages| ensures RowAccepted(pages, k, source, disk, dir, base, seen, sha256) {
      assert PageAccepted(pages, k, source, disk, dir, base, seen, sha256);
    }
    forall p | 1 <= p <= |pages|
      ensures Answer(source, p).Some? && |Answer(source, p).value| <= PAGE_SIZE
      ensures p < |pages| ==> Answer(source, p).value != []
      ensures p == |pages| ==> Answer(source, p).value == []
    {
      assert PageAccepted(pages, p - 1, source, disk, dir, base, seen, sha256);
    }
  }

  /** One page: its row, its file and its rows. */
  method RecomputePage(
    pages: seq<PageRow>, k: nat, source: Source, disk: Disk, dir: string, base: string,
    before: Rows, seen: set<string>, ids: set<int>, sha256: Digest)
    returns (r: SetResult<Rows>, newIds: set<int>)
    requires k < |pages| && source == FilesSource(pages, disk, source.parse)
    requires GoodIds(before) && ids == Ids(before)
    ensures r.Done? <==>
            && PageAccepted(pages, k, source, disk, dir, base, seen, sha256)
            && GoodIds(before + Answer(source, k + 1).value)
    ensures r.Done? ==> r.value == Answer(source, k + 1).value && newIds == Ids(before + r.value)
  {
    newIds := ids;
    var row := pages[k];
    if row.page != k + 1 || row.endpoint != PageEndpoint(base, k + 1) {
      return Refused(OrderInvalid), ids;
    }
    if !FileAccepted(row.response, disk, dir, seen + PathsOf(pages[..k]), sha256) {
      return Refused(FileInvalid), ids;
    }
    var items := Decoded(source, disk[row.response.path]);
    assert items == Answer(source, k + 1);
    if items.None? || |items.value| > PAGE_SIZE || row.itemCount != |items.value|
      || (k + 1 < |pages| && items.value == [])
    {
      return Refused(PageInvalid), ids;
    }
    var error;
    error, newIds := CheckIds(items.value, before, ids);
    if error.Some? {
      return Refused(PageInvalid), ids;
    }
    r := Done(items.value);
  }

  /** All pages in turn. */
  method RecomputePages(
    pages: seq<PageRow>, source: Source, disk: Disk, dir: string, base: string, seen: set<string>, sha256: Digest)
    returns (r: SetResult<Rows>)
    requires source == FilesSource(pages, disk, source.parse)
    ensures r.Done? <==>
            && EachAccepted(pages, |pages|, source, disk, dir, base, seen, sha256)
            && GoodIds(Gathered(source, |pages|))
    ensures r.Done? ==> r.value == Gathered(source, |pages|)
  {
    var items: Rows, ids: set<int> := [], {};
    for k := 0 to |pages|
      invariant items == Gathered(source, k) && GoodIds(items) && ids == Ids(items)
      invariant EachAccepted(pages, k, source, disk, dir, base, seen, sha256)
    {
      if GoodIds(Gathered(source, |pages|)) {
        GatheredGood(source, k + 1, |pages|);
      }
      assert EachAccepted(pages, |pages|, source, disk, dir, base, seen, sha256)
             ==> PageAccepted(pages, k, source, disk, dir, base, seen, sha256);
      var page, newIds := RecomputePage(pages, k, source, disk, dir, base, items, seen, ids, sha256);
      if page.Refused? {
        return Refused(page.error);
      }
      items, ids := items + page.value, newIds;
    }
    r := Done(items);
  }

  method RecomputePageSet(
    pageSet: PageSet, disk: Disk, dir: string, base: string, seen: set<string>,
    parse: Bytes -> Option<Value>, sha256: Digest)
    returns (r: SetResult<Rows>, nowSeen: set<string>)
    ensures r.Done? <==>
            SetAccepted(pageSet, FilesSource(pageSet.pages, disk, parse), disk, dir, base, seen, sha256)
    ensures r.Done? ==> r.value == Gathered(FilesSource(pageSet.pages, disk, parse), |pageSet.pages|)
    ensures r.Done? ==> nowSeen == seen + PathsOf(pageSet.pages)
  {
    nowSeen := seen;
    var pages := pageSet.pages;
    if !pageSet.complete || pages == [] {
      return Refused(SetIncomplete), seen;
    }
    var source := FilesSource(pages, disk, parse);
    if SetAccepted(pageSet, source, disk, dir, base, seen, sha256) {
      forall k | 0 <= k < |pages| ensures PageAccepted(pages, k, source, disk, dir, base, seen, sha256) {
        SetAcceptedGives(pageSet, source, disk, dir, base, seen, sha256, k);
      }
      SetAcceptedGives(pageSet, source, disk, dir, base, seen, sha256, |pages| - 1);
    }
    var items := RecomputePages(pages, source, disk, dir, base, seen, sha256);
    if items.Refused? {
      return Refused(items.error), seen;
    }
    if pages[|pages| - 1].itemCount != 0 {
      return Refused(SetIncomplete), seen;
    }
    SetAcceptedFrom(pageSet, source, disk, dir, base, seen, sha256);
    if pageSet != PageSet(true, |pages|, |pages|, |items.value|, pages) {
      return Refused(SummaryMismatch), seen;
    }
    nowSeen := seen + PathsOf(pages);
    r := Done(items.value);
  }

  // ----- what was written is read back

  /** A file name without a slash in it keeps the file in the directory. */
  lemma PathBeside(dir: string, prefix: string, n: nat)
    requires '/' !in prefix && '\\' !in prefix && '\\' !in dir
    ensures Beside(PagePath(dir, prefix, n), dir)
  {
    var digits := Decimal(n);
    assert '/' !in digits && '\\' !in digits;
    var number := Padded(n, 4);
    assert '/' !in number && '\\' !in number;
    var name := prefix + "_page_" + number + "_raw.json";
    assert '/' !in name && '\\' !in name;
    var path := PagePath(dir, prefix, n);
    assert path == dir + "/" + name;
    assert path[|dir| + 1..] == name;
  }

  /** The files of a capture are still on disk. */
  ghost predicate Kept(disk: Disk, dir: string, prefix: string, pages: seq<Page>) {
    forall path | path in PageFiles(dir, prefix, pages) ::
      path in disk && disk[path] == PageFiles(dir, prefix, pages)[path]
  }

  /** A name usable for the files. */
  predicate PlainName(dir: string, prefix: string) {
    '/' !in prefix && '\\' !in prefix && '\\' !in dir
  }

  /** Each listed file answers like the page it was written from. */
  lemma SamePage(
    source: Source, base: string, disk: Disk, dir: string, prefix: string, pages: seq<Page>, sha256: Digest, p: nat)
    requires PagesNumbered(pages) && Kept(disk, dir, prefix, pages) && 1 <= p <= |pages|
    requires IsPage(source, base, p, pages[p - 1])
    ensures Answer(FilesSource(WrittenRows(dir, prefix, pages, sha256), disk, source.parse), p) == Answer(source, p)
    ensures PagePath(dir, prefix, p) in disk && disk[PagePath(dir, prefix, p)] == pages[p - 1].raw
  {
    PageFilesHold(dir, prefix, pages, p - 1);
    assert WrittenRows(dir, prefix, pages, sha256)[p - 1].response.path == PagePath(dir, prefix, p);
  }

  lemma {:induction false} SameGathered(a: Source, b: Source, n: nat)
    requires forall p | 1 <= p <= n :: Answer(a, p) == Answer(b, p)
    ensures Gathered(a, n) == Gathered(b, n)
  {
    if n > 0 { SameGathered(a, b, n - 1); }
  }

  lemma SameComplete(a: Source, b: Source, n: nat)
    requires forall p | 1 <= p <= n :: Answer(a, p) == Answer(b, p)
    requires CompleteAt(a, n)
    ensures CompleteAt(b, n) && Gathered(b, n) == Gathered(a, n)
  {
    SameGathered(a, b, n);
    forall p | 1 <= p <= n ensures Answer(b, p) == Answer(a, p) { }
  }

  lemma NotSeenBefore(dir: string, prefix: string, pages: seq<Page>, sha256: Digest, k: nat)
    requires PagesNumbered(pages) && k < |pages|
    ensures PagePath(dir, prefix, k + 1) !in PathsOf(WrittenRows(dir, prefix, pages, sha256)[..k])
  {
    var before := WrittenRows(dir, prefix, pages, sha256)[..k];
    forall i | 0 <= i < k ensures before[i].response.path != PagePath(dir, prefix, k + 1) {
      assert before[i].response.path == PagePath(dir, prefix, i + 1);
      if PagePath(dir, prefix, i + 1) == PagePath(dir, prefix, k + 1) {
        PagePathInjective(dir, prefix, i + 1, k + 1);
      }
    }
  }

  lemma {:induction false} TotalIsFlattened(dir: string, prefix: string, pages: seq<Page>, sha256: Digest)
    ensures ItemTotal(WrittenRows(dir, prefix, pages, sha256)) == |Flatten(pages)|
  {
    if pages != [] {
      var init := pages[..|pages| - 1];
      TotalIsFlattened(dir, prefix, init, sha256);
      var rows := WrittenRows(dir, prefix, pages, sha256);
      assert rows[..|rows| - 1] == WrittenRows(dir, prefix, init, sha256);
    }
  }

  /** One written row is accepted. */
  lemma WrittenRowAccepted(
    source: Source, base: string, disk: Disk, dir: string, prefix: string, pages: seq<Page>, seen: set<string>,
    sha256: Digest, k: nat)
    requires PagesNumbered(pages) && Kept(disk, dir, prefix, pages) && k < |pages|
    requires IsPage(source, base, k + 1, pages[k])
    requires PlainName(dir, prefix) && PagePath(dir, prefix, k + 1) !in seen
    ensures var rows := WrittenRows(dir, prefix, pages, sha256);
            RowAccepted(rows, k, FilesSource(rows, disk, source.parse), disk, dir, base, seen, sha256)
  {
    SamePage(source, base, disk, dir, prefix, pages, sha256, k + 1);
    NotSeenBefore(dir, prefix, pages, sha256, k);
    PathBeside(dir, prefix, k + 1);
  }

  /** Round trip: the summary written for a captured list is accepted when its files are read back,
      and gives exactly the captured rows. */
  lemma {:induction false} WrittenSetReadsBack(
    source: Source, base: string, disk: Disk, dir: string, prefix: string, pages: seq<Page>, seen: set<string>,
    sha256: Digest)
    requires CompleteAt(source, |pages|)
    requires forall k | 0 <= k < |pages| :: IsPage(source, base, k + 1, pages[k])
    requires Kept(disk, dir, prefix, pages) && PlainName(dir, prefix)
    requires PageFiles(dir, prefix, pages).Keys !! seen
    ensures var pageSet := Summary(WrittenRows(dir, prefix, pages, sha256));
            var files := FilesSource(pageSet.pages, disk, source.parse);
            && SetAccepted(pageSet, files, disk, dir, base, seen, sha256)
            && Gathered(files, |pageSet.pages|) == Flatten(pages)
  {
    var rows := WrittenRows(dir, prefix, pages, sha256);
    var files := FilesSource(rows, disk, source.parse);
    assert PagesNumbered(pages);
    forall p | 1 <= p <= |pages| ensures Answer(files, p) == Answer(source, p) {
      assert IsPage(source, base, p, pages[p - 1]);
      SamePage(source, base, disk, dir, prefix, pages, sha256, p);
    }
    SameComplete(source, files, |pages|);
    forall k | 0 <= k < |rows| ensures RowAccepted(rows, k, files, disk, dir, base, seen, sha256) {
      PageFilesHold(dir, prefix, pages, k);
      WrittenRowAccepted(source, base, disk, dir, prefix, pages, seen, sha256, k);
    }
    FlattenGathered(source, base, pages);
    TotalIsFlattened(dir, prefix, pages, sha256);
  }

  /** The bytes of a page set's files. */
  function PageBytes(pageSet: PageSet, disk: Disk): set<Bytes> {
    set row | row in pageSet.pages && row.response.path in disk :: disk[row.response.path]
  }

  /** A page set pins its rows: any two directories it is accepted in give the same rows, unless the
      digest collides on their files. */
  lemma PageSetPinsRows(
    pageSet: PageSet, a: Disk, b: Disk, parse: Bytes -> Option<Value>, sha256: Digest,
    dirA: string, dirB: string, baseA: string, baseB: string, seenA: set<string>, seenB: set<string>)
    requires NoCollision(sha256, PageBytes(pageSet, a), PageBytes(pageSet, b))
    requires SetAccepted(pageSet, FilesSource(pageSet.pages, a, parse), a, dirA, baseA, seenA, sha256)
    requires SetAccepted(pageSet, FilesSource(pageSet.pages, b, parse), b, dirB, baseB, seenB, sha256)
    ensures Gathered(FilesSource(pageSet.pages, a, parse), |pageSet.pages|)
         == Gathered(FilesSource(pageSet.pages, b, parse), |pageSet.pages|)
  {
    var x, y := FilesSource(pageSet.pages, a, parse), FilesSource(pageSet.pages, b, parse);
    forall p | 1 <= p <= |pageSet.pages| ensures Answer(x, p) == Answer(y, p) {
      var k := p - 1;
      assert RowAccepted(pageSet.pages, k, x, a, dirA, baseA, seenA, sha256);
      assert RowAccepted(pageSet.pages, k, y, b, dirB, baseB, seenB, sha256);
      var path := pageSet.pages[k].response.path;
      assert pageSet.pages[k] in pageSet.pages;
      assert a[path] in PageBytes(pageSet, a) && b[path] in PageBytes(pageSet, b);
      assert sha256(a[path]) == sha256(b[path]);
    }
    SameGathered(x, y, |pageSet.pages|);
  }
}
