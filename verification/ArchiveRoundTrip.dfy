/** Safe extraction into a file system, and the agreement of the two inventories
    (scripts/capture_core_actions_run_d1l.py). */
module ArchiveRoundTrip {
  import opened Sorting
  import opened ArchiveExtraction

  datatype Node = Directory | File(data: Bytes)

  /** Nodes by absolute path. `p <= q` on paths says that `p` is `q` or an ancestor of it. */
  type Nodes = map<Path, Node>

  ghost predicate TreeShaped(nodes: Nodes) {
    && (forall p | p in nodes :: PlainParts(p))
    && (forall p, q | q in nodes && p <= q && p != q :: p in nodes && nodes[p].Directory?)
    && [] in nodes && nodes[[]].Directory?
  }

  function Ancestry(p: Path): (s: set<Path>)
    ensures forall q :: q in s <==> q <= p
  {
    var s := set i | 0 <= i <= |p| :: p[..i];
    assert forall q :: q <= p ==> q == p[..|q|];
    s
  }

  /** No ancestor of `p`, nor `p` itself, is a file. */
  predicate CanMakeDirs(nodes: Nodes, p: Path) {
    forall q | q in Ancestry(p) && q in nodes :: nodes[q].Directory?
  }

  /** `mkdir(parents=True, exist_ok=True)`. */
  function WithDirs(nodes: Nodes, p: Path): Nodes {
    map q | q in nodes.Keys + Ancestry(p) :: if q in nodes then nodes[q] else Directory
  }

  function Target(destination: Path, e: Entry): Path {
    destination + Parts(e.name)
  }

  function Parent(p: Path): Path {
    if p == [] then [] else p[..|p| - 1]
  }

  class FileSystem {
    var nodes: Nodes

    constructor (initial: Nodes)
      ensures nodes == initial
    {
      nodes := initial;
    }

    method MakeDirs(p: Path) returns (ok: bool)
      modifies this
      ensures ok <==> CanMakeDirs(old(nodes), p)
      ensures nodes == if ok then WithDirs(old(nodes), p) else old(nodes)
    {
      ok := CanMakeDirs(nodes, p);
      if ok {
        nodes := WithDirs(nodes, p);
      }
    }

    /** `open("xb")` and the writes: the path must be new and its parent a directory. */
    method CreateFile(p: Path, data: Bytes) returns (ok: bool)
      modifies this
      ensures ok <==> p !in old(nodes) && Parent(p) in old(nodes) && old(nodes)[Parent(p)].Directory?
      ensures nodes == if ok then old(nodes)[p := File(data)] else old(nodes)
    {
      ok := p !in nodes && Parent(p) in nodes && nodes[Parent(p)].Directory?;
      if ok {
        nodes := nodes[p := File(data)];
      }
    }
  }

  // ----- one entry

  predicate CanAdd(nodes: Nodes, destination: Path, e: Entry) {
    var target := Target(destination, e);
    if IsDir(e) then CanMakeDirs(nodes, target)
    else CanMakeDirs(nodes, Parent(target)) && target !in WithDirs(nodes, Parent(target))
  }

  function Added(nodes: Nodes, destination: Path, e: Entry): Nodes {
    var target := Target(destination, e);
    if IsDir(e) then WithDirs(nodes, target)
    else WithDirs(nodes, Parent(target))[target := File(e.data)]
  }

  method ExtractEntry(fs: FileSystem, destination: Path, e: Entry) returns (ok: bool)
    requires destination in fs.nodes && destination != []
    modifies fs
    ensures ok <==> CanAdd(old(fs.nodes), destination, e)
    ensures ok ==> fs.nodes == Added(old(fs.nodes), destination, e)
    ensures !ok ==> fs.nodes == old(fs.nodes) || fs.nodes == WithDirs(old(fs.nodes), Parent(Target(destination, e)))
  {
    var target := Target(destination, e);
    if IsDir(e) {
      ok := fs.MakeDirs(target);
      return;
    }
    ok := fs.MakeDirs(Parent(target));
    if ok {
      assert Parent(target) in Ancestry(Parent(target));
      ok := fs.CreateFile(target, e.data);
    }
  }

  // ----- what a partly extracted archive looks like

  /** The nodes after the first `k` entries, over the nodes `base` from before. */
  ghost predicate Shape(base: Nodes, nodes: Nodes, destination: Path, entries: seq<Entry>, k: nat)
    requires k <= |entries|
  {
    && (forall q | q in base :: q in nodes && nodes[q] == base[q])
    && (forall q | q <= destination :: q in nodes && nodes[q].Directory?)
    && (forall i, q | 0 <= i < k && q <= Target(destination, entries[i]) :: q in nodes)
    && (forall i | 0 <= i < k && !IsDir(entries[i]) ::
          nodes[Target(destination, entries[i])] == File(entries[i].data))
    && (forall q | q in nodes && q !in base ::
          q <= destination || exists i | 0 <= i < k :: q <= Target(destination, entries[i]))
    && (forall q | q in nodes && q !in base && nodes[q].File? ::
          exists i | 0 <= i < k :: !IsDir(entries[i]) && q == Target(destination, entries[i]))
  }

  /** Entry `i` is a file in the way of entry `j`, or a file without a path of its own. */
  predicate Conflict(entries: seq<Entry>, i: nat, j: nat)
    requires i < |entries| && j < |entries|
  {
    var p, q := Parts(entries[i].name), Parts(entries[j].name);
    !IsDir(entries[i]) && (p == [] || (p <= q && p != q))
  }

  predicate ConflictFree(entries: seq<Entry>, n: nat)
    requires n <= |entries|
  {
    forall i, j | 0 <= i < n && 0 <= j < n :: !Conflict(entries, i, j)
  }

  predicate DistinctParts(entries: seq<Entry>) {
    forall i, j | 0 <= i < j < |entries| :: Parts(entries[i].name) != Parts(entries[j].name)
  }

  lemma TargetPrefix(destination: Path, p: Path, q: Path)
    ensures destination + p <= destination + q <==> p <= q
    ensures destination + p == destination + q <==> p == q
  {
    var x, y := destination + p, destination + q;
    if x <= y {
      assert |p| <= |q|;
      forall i | 0 <= i < |p| ensures p[i] == q[i] {
        assert x[|destination| + i] == y[|destination| + i];
      }
    }
    assert p == x[|destination|..] && q == y[|destination|..];
  }

  /** Nothing lies under an absent destination. */
  lemma NothingBelow(base: Nodes, destination: Path, q: Path)
    requires TreeShaped(base) && destination !in base && q in base
    ensures !(destination <= q)
  {
  }

  lemma PrefixesComparable(a: Path, b: Path, p: Path)
    requires a <= p && b <= p
    ensures a <= b || b <= a
  {
  }

  lemma NoConflictMeansDirs(base: Nodes, nodes: Nodes, destination: Path, entries: seq<Entry>, k: nat, p: Path)
    requires TreeShaped(base) && destination !in base && DistinctParts(entries)
    requires k < |entries| && Shape(base, nodes, destination, entries, k)
    requires forall i | 0 <= i < k :: !Conflict(entries, i, k)
    requires p <= Target(destination, entries[k])
    ensures CanMakeDirs(nodes, p)
  {
    var target := Target(destination, entries[k]);
    forall q | q in Ancestry(p) && q in nodes ensures nodes[q].Directory? {
      assert q <= target && destination <= target;
      if q in base {
        NothingBelow(base, destination, q);
        PrefixesComparable(q, destination, target);
      } else if nodes[q].File? {
        var i :| 0 <= i < k && !IsDir(entries[i]) && q == Target(destination, entries[i]);
        TargetPrefix(destination, Parts(entries[i].name), Parts(entries[k].name));
        assert Conflict(entries, i, k);
        assert false;
      }
    }
  }

  lemma NoConflictMeansNew(base: Nodes, nodes: Nodes, destination: Path, entries: seq<Entry>, k: nat)
    requires TreeShaped(base) && destination !in base && DistinctParts(entries)
    requires k < |entries| && Shape(base, nodes, destination, entries, k) && !IsDir(entries[k])
    requires forall i | 0 <= i <= k :: !Conflict(entries, k, i)
    ensures Target(destination, entries[k]) !in WithDirs(nodes, Parent(Target(destination, entries[k])))
  {
    var target := Target(destination, entries[k]);
    assert !Conflict(entries, k, k);
    assert |target| > |destination|;
    assert destination <= target;
    if target in nodes {
      if target in base { NothingBelow(base, destination, target); }
      var i :| 0 <= i < k && target <= Target(destination, entries[i]);
      TargetPrefix(destination, Parts(entries[k].name), Parts(entries[i].name));
      assert Conflict(entries, k, i);
      assert false;
    }
  }

  lemma ConflictBlocks(base: Nodes, nodes: Nodes, destination: Path, entries: seq<Entry>, k: nat, i: nat)
    requires k < |entries| && Shape(base, nodes, destination, entries, k)
    requires i <= k && (Conflict(entries, i, k) || Conflict(entries, k, i))
    ensures !CanAdd(nodes, destination, entries[k])
  {
    var p, q := Parts(entries[i].name), Parts(entries[k].name);
    var early, late := Target(destination, entries[i]), Target(destination, entries[k]);
    assert destination + [] == destination;
    TargetPrefix(destination, p, q);
    TargetPrefix(destination, q, p);
    if Conflict(entries, k, i) {
      assert late in nodes;
    } else {
      assert early in nodes && nodes[early].File?;
      assert early <= Parent(late);
      assert early in Ancestry(Parent(late)) && early in Ancestry(late);
    }
  }

  /** Entry `k` can be added exactly when it conflicts with no entry up to itself. */
  lemma CanAddIff(base: Nodes, nodes: Nodes, destination: Path, entries: seq<Entry>, k: nat)
    requires TreeShaped(base) && destination !in base && DistinctParts(entries)
    requires k < |entries| && Shape(base, nodes, destination, entries, k)
    ensures CanAdd(nodes, destination, entries[k]) <==>
            forall i | 0 <= i <= k :: !Conflict(entries, i, k) && !Conflict(entries, k, i)
  {
    var target := Target(destination, entries[k]);
    if forall i | 0 <= i <= k :: !Conflict(entries, i, k) && !Conflict(entries, k, i) {
      NoConflictMeansDirs(base, nodes, destination, entries, k, target);
      NoConflictMeansDirs(base, nodes, destination, entries, k, Parent(target));
      if !IsDir(entries[k]) {
        NoConflictMeansNew(base, nodes, destination, entries, k);
      }
    } else {
      var i :| 0 <= i <= k && (Conflict(entries, i, k) || Conflict(entries, k, i));
      ConflictBlocks(base, nodes, destination, entries, k, i);
    }
  }

  /** What adding an entry changes: new nodes on the way to its target, and the target. */
  ghost predicate Grows(nodes: Nodes, after: Nodes, target: Path, file: bool, data: Bytes) {
    && (forall q | q in nodes :: q in after && after[q] == nodes[q])
    && (forall q | q <= target :: q in after)
    && (forall q | q in after && q !in nodes ::
          q <= target && after[q] == if file && q == target then File(data) else Directory)
    && (file ==> target !in nodes)
  }

  lemma AddedGrows(nodes: Nodes, destination: Path, e: Entry)
    requires CanAdd(nodes, destination, e)
    ensures Grows(nodes, Added(nodes, destination, e), Target(destination, e), !IsDir(e), e.data)
  {
    var target := Target(destination, e);
    var after := Added(nodes, destination, e);
    if !IsDir(e) {
      assert target !in nodes;
      forall q | q <= target ensures q in after {
        if q != target { assert q <= Parent(target); }
      }
    }
  }

  lemma GrowsKeepsShape(base: Nodes, nodes: Nodes, after: Nodes, destination: Path, entries: seq<Entry>, k: nat)
    requires k < |entries| && Shape(base, nodes, destination, entries, k)
    requires Grows(nodes, after, Target(destination, entries[k]), !IsDir(entries[k]), entries[k].data)
    ensures Shape(base, after, destination, entries, k + 1)
  {
    var target := Target(destination, entries[k]);
    forall i, q | 0 <= i < k + 1 && q <= Target(destination, entries[i]) ensures q in after {
      if i < k { assert q in nodes; }
    }
    forall i | 0 <= i < k + 1 && !IsDir(entries[i])
      ensures after[Target(destination, entries[i])] == File(entries[i].data)
    {
      var t := Target(destination, entries[i]);
      assert t <= t;
      if i < k { assert t in nodes && nodes[t] == File(entries[i].data); }
    }
    forall q | q in after && q !in base
      ensures q <= destination || exists i | 0 <= i < k + 1 :: q <= Target(destination, entries[i])
    {
      if q in nodes && !(q <= destination) {
        var i :| 0 <= i < k && q <= Target(destination, entries[i]);
        assert q <= Target(destination, entries[i]);
      } else if q !in nodes {
        assert q <= Target(destination, entries[k]);
      }
    }
    forall q | q in after && q !in base && after[q].File?
      ensures exists i | 0 <= i < k + 1 :: !IsDir(entries[i]) && q == Target(destination, entries[i])
    {
      if q in nodes {
        var i :| 0 <= i < k && !IsDir(entries[i]) && q == Target(destination, entries[i]);
        assert !IsDir(entries[i]) && q == Target(destination, entries[i]);
      } else {
        assert !IsDir(entries[k]) && q == Target(destination, entries[k]);
      }
    }
  }

  lemma ShapeStep(base: Nodes, nodes: Nodes, destination: Path, entries: seq<Entry>, k: nat)
    requires k < |entries| && Shape(base, nodes, destination, entries, k)
    requires CanAdd(nodes, destination, entries[k])
    ensures Shape(base, Added(nodes, destination, entries[k]), destination, entries, k + 1)
  {
    AddedGrows(nodes, destination, entries[k]);
    GrowsKeepsShape(base, nodes, Added(nodes, destination, entries[k]), destination, entries, k);
  }

  // ----- `safe_extract`

  /** Names that print differently have different components. */
  lemma AcceptedIsDistinct(entries: seq<Entry>, fold: string -> string)
    requires InventoryAccepted(entries, fold)
    ensures DistinctParts(entries)
    ensures forall i | 0 <= i < |entries| :: MemberPath(entries[i]).Ok?
  {
    AcceptedEach(entries, fold, |entries|);
    forall i | 0 <= i < |entries| ensures MemberPath(entries[i]).Ok? {
      assert EntryAccepted(entries, fold, i);
    }
    forall i, j | 0 <= i < j < |entries| ensures Parts(entries[i].name) != Parts(entries[j].name) {
      assert EntryAccepted(entries, fold, j);
      assert NameOf(entries[i]) != NameOf(entries[j]);
    }
  }

  /** Outside the destination nothing changes, except that its missing ancestors may appear. */
  ghost predicate OutsideUntouched(base: Nodes, nodes: Nodes, destination: Path) {
    && (forall q | q in base :: q in nodes && nodes[q] == base[q])
    && (forall q | q in nodes && q !in base :: q <= destination || destination <= q)
  }

  lemma ShapeOutside(base: Nodes, nodes: Nodes, destination: Path, entries: seq<Entry>, k: nat)
    requires k <= |entries| && Shape(base, nodes, destination, entries, k)
    ensures OutsideUntouched(base, nodes, destination)
  {
    forall q | q in nodes && q !in base ensures q <= destination || destination <= q {
      if !(q <= destination) {
        var i :| 0 <= i < k && q <= Target(destination, entries[i]);
        PrefixesComparable(q, destination, Target(destination, entries[i]));
      }
    }
  }

  lemma StartShape(base: Nodes, destination: Path, entries: seq<Entry>)
    requires CanMakeDirs(base, destination)
    ensures Shape(base, WithDirs(base, destination), destination, entries, 0)
  {
  }

  lemma PartialOutside(base: Nodes, nodes: Nodes, destination: Path, entries: seq<Entry>, k: nat)
    requires k < |entries| && Shape(base, nodes, destination, entries, k)
    ensures OutsideUntouched(base, nodes, destination)
    ensures OutsideUntouched(base, WithDirs(nodes, Parent(Target(destination, entries[k]))), destination)
  {
    ShapeOutside(base, nodes, destination, entries, k);
    var target := Target(destination, entries[k]);
    var after := WithDirs(nodes, Parent(target));
    forall q | q in after && q !in base ensures q <= destination || destination <= q {
      if q !in nodes {
        assert q <= target && destination <= target;
        PrefixesComparable(q, destination, target);
      }
    }
  }

  lemma ConflictFreeExtends(entries: seq<Entry>, k: nat)
    requires k < |entries|
    ensures ConflictFree(entries, k + 1) <==>
            ConflictFree(entries, k) && forall i | 0 <= i <= k :: !Conflict(entries, i, k) && !Conflict(entries, k, i)
  {
  }

  lemma ConflictFreePrefix(entries: seq<Entry>, m: nat, n: nat)
    requires m <= n <= |entries| && !ConflictFree(entries, m)
    ensures !ConflictFree(entries, n)
  {
  }

  /** One entry's turn: whether it can be added, and what the extraction then looks like. */
  lemma EntryTurn(base: Nodes, nodes: Nodes, destination: Path, entries: seq<Entry>, k: nat)
    requires TreeShaped(base) && destination !in base && DistinctParts(entries)
    requires k < |entries| && Shape(base, nodes, destination, entries, k) && ConflictFree(entries, k)
    ensures CanAdd(nodes, destination, entries[k]) <==> ConflictFree(entries, k + 1)
    ensures CanAdd(nodes, destination, entries[k]) ==>
              Shape(base, Added(nodes, destination, entries[k]), destination, entries, k + 1)
    ensures !CanAdd(nodes, destination, entries[k]) ==> !ConflictFree(entries, |entries|)
  {
    CanAddIff(base, nodes, destination, entries, k);
    ConflictFreeExtends(entries, k);
    if CanAdd(nodes, destination, entries[k]) {
      ShapeStep(base, nodes, destination, entries, k);
    } else {
      ConflictFreePrefix(entries, k + 1, |entries|);
    }
  }

  /** The loop over the entries, in a destination just made. */
  method ExtractEntries(fs: FileSystem, destination: Path, entries: seq<Entry>, ghost base: Nodes)
    returns (r: Result<()>)
    requires TreeShaped(base) && destination !in base && DistinctParts(entries)
    requires Shape(base, fs.nodes, destination, entries, 0)
    modifies fs
    ensures r.Ok? <==> ConflictFree(entries, |entries|)
    ensures r.Ok? ==> Shape(base, fs.nodes, destination, entries, |entries|)
    ensures OutsideUntouched(base, fs.nodes, destination)
  {
    assert destination <= destination;
    for k := 0 to |entries|
      invariant Shape(base, fs.nodes, destination, entries, k)
      invariant ConflictFree(entries, k)
    {
      ghost var nodes := fs.nodes;
      EntryTurn(base, nodes, destination, entries, k);
      var ok := ExtractEntry(fs, destination, entries[k]);
      if !ok {
        PartialOutside(base, nodes, destination, entries, k);
        return Err(CannotCreate(entries[k].name));
      }
    }
    ShapeOutside(base, fs.nodes, destination, entries, |entries|);
    r := Ok(());
  }

  /** Extraction succeeds exactly when the inventory is accepted, the destination is absent and can
      be made, and no file has an empty path or stands in the way of another member. */
  method SafeExtract(
    fs: FileSystem, destination: Path, entries: seq<Entry>, fold: string -> string, sha256: Bytes -> string)
    returns (r: Result<()>)
    requires TreeShaped(fs.nodes)
    modifies fs
    ensures r.Ok? <==>
            && destination !in old(fs.nodes)
            && InventoryAccepted(entries, fold)
            && CanMakeDirs(old(fs.nodes), destination)
            && ConflictFree(entries, |entries|)
    ensures r.Ok? ==> Shape(old(fs.nodes), fs.nodes, destination, entries, |entries|)
    ensures OutsideUntouched(old(fs.nodes), fs.nodes, destination)
  {
    if destination in fs.nodes {
      return Err(DestinationExists);
    }
    var inventory := ZipInventory(entries, fold, sha256);
    if inventory.Err? {
      return Err(inventory.error);
    }
    AcceptedIsDistinct(entries, fold);
    ghost var base := fs.nodes;
    var made := fs.MakeDirs(destination);
    if !made {
      return Err(CannotCreate(Posix(destination)));
    }
    StartShape(base, destination, entries);
    r := ExtractEntries(fs, destination, entries, base);
  }

  // ----- `tree_inventory`

  /** The nodes strictly below a directory. */
  function Below(nodes: Nodes, directory: Path): set<Path> {
    set q | q in nodes && directory <= q && q != directory
  }

  function Relative(q: Path, directory: Path): Path {
    if directory <= q then q[|directory|..] else []
  }

  function DataOf(nodes: Nodes, q: Path): Bytes {
    if q in nodes && nodes[q].File? then nodes[q].data else []
  }

  function TreeRow(nodes: Nodes, directory: Path, q: Path, sha256: Bytes -> string): Row {
    Row(Posix(Relative(q, directory)), |DataOf(nodes, q)|, sha256(DataOf(nodes, q)))
  }

  /** The row belongs to a file below the directory. */
  ghost predicate IsTreeRow(nodes: Nodes, directory: Path, row: Row, sha256: Bytes -> string) {
    exists q | q in Below(nodes, directory) && nodes[q].File? :: row == TreeRow(nodes, directory, q, sha256)
  }

  /** The listing in the order Python's `rglob` happens to give. */
  method Listing(nodes: Nodes, directory: Path) returns (paths: seq<Path>)
    ensures forall q :: q in paths <==> q in Below(nodes, directory)
    ensures forall i, j | 0 <= i < j < |paths| :: paths[i] != paths[j]
  {
    var pending := Below(nodes, directory);
    paths := [];
    while pending != {}
      invariant forall q :: q in Below(nodes, directory) <==> q in paths || q in pending
      invariant forall q | q in paths :: q !in pending
      invariant forall i, j | 0 <= i < j < |paths| :: paths[i] != paths[j]
      decreases |pending|
    {
      var q :| q in pending;
      pending := pending - {q};
      paths := paths + [q];
    }
  }

  lemma RowLessComparesByKey()
    ensures ComparesByKey(RowLess)
  {
    TextLessComparesByKey();
    forall x: Row, y: Row, z: Row | !RowLess(y, x) && !RowLess(z, y) ensures !RowLess(z, x) {
      assert !TextLess(y.path, x.path) && !TextLess(z.path, y.path);
    }
    forall x: Row, y: Row ensures RowLess(x, y) ==> !RowLess(y, x) {
      TextLessTrichotomy(x.path, y.path);
    }
  }

  predicate PathLess(directory: Path, a: Path, b: Path) {
    TextLess(Posix(Relative(a, directory)), Posix(Relative(b, directory)))
  }

  lemma PathLessComparesByKey(directory: Path)
    ensures ComparesByKey((a: Path, b: Path) => PathLess(directory, a, b))
  {
    TextLessComparesByKey();
    var less := (a: Path, b: Path) => PathLess(directory, a, b);
    forall x, y, z | !less(y, x) && !less(z, y) ensures !less(z, x) {
      assert !PathLess(directory, y, x) && !PathLess(directory, z, y);
    }
    forall x, y ensures less(x, y) ==> !less(y, x) {
      TextLessTrichotomy(Posix(Relative(x, directory)), Posix(Relative(y, directory)));
    }
  }

  /** Different nodes below a directory print differently. */
  lemma ListingHasNoTies(nodes: Nodes, directory: Path, paths: seq<Path>)
    requires TreeShaped(nodes)
    requires forall q | q in paths :: q in Below(nodes, directory)
    requires forall i, j | 0 <= i < j < |paths| :: paths[i] != paths[j]
    ensures NoTies(paths, (a: Path, b: Path) => PathLess(directory, a, b))
  {
    forall i, j | 0 <= i < j < |paths|
      ensures PathLess(directory, paths[i], paths[j]) || PathLess(directory, paths[j], paths[i])
    {
      var p, q := paths[i], paths[j];
      assert p in Below(nodes, directory) && q in Below(nodes, directory);
      assert p == directory + Relative(p, directory) && q == directory + Relative(q, directory);
      assert forall n | 0 <= n < |Relative(p, directory)| :: Relative(p, directory)[n] == p[|directory| + n];
      assert forall n | 0 <= n < |Relative(q, directory)| :: Relative(q, directory)[n] == q[|directory| + n];
      if Posix(Relative(p, directory)) == Posix(Relative(q, directory)) {
        PosixInjective(Relative(p, directory), Relative(q, directory));
      }
      TextLessTrichotomy(Posix(Relative(p, directory)), Posix(Relative(q, directory)));
    }
  }

  /** The rows of the files among some paths, in that order. */
  function RowsAmong(nodes: Nodes, directory: Path, paths: seq<Path>, sha256: Bytes -> string): seq<Row> {
    if paths == [] then []
    else
      var last := paths[|paths| - 1];
      RowsAmong(nodes, directory, paths[..|paths| - 1], sha256)
      + if last in nodes && nodes[last].File? then [TreeRow(nodes, directory, last, sha256)] else []
  }

  lemma {:induction false} RowsAmongMeaning(
    nodes: Nodes, directory: Path, paths: seq<Path>, sha256: Bytes -> string, row: Row)
    ensures row in RowsAmong(nodes, directory, paths, sha256) <==>
            exists q | q in paths :: q in nodes && nodes[q].File? && row == TreeRow(nodes, directory, q, sha256)
  {
    if paths != [] {
      var init, last := paths[..|paths| - 1], paths[|paths| - 1];
      RowsAmongMeaning(nodes, directory, init, sha256, row);
      assert forall q :: q in paths <==> q in init || q == last;
    }
  }

  lemma {:induction false} RowsAmongSorted(nodes: Nodes, directory: Path, paths: seq<Path>, sha256: Bytes -> string)
    requires StrictlySorted(paths, (a: Path, b: Path) => PathLess(directory, a, b))
    ensures StrictlySorted(RowsAmong(nodes, directory, paths, sha256), RowLess)
  {
    var less := (a: Path, b: Path) => PathLess(directory, a, b);
    if paths != [] {
      var init, last := paths[..|paths| - 1], paths[|paths| - 1];
      RowsAmongSorted(nodes, directory, init, sha256);
      var rows := RowsAmong(nodes, directory, init, sha256);
      forall i | 0 <= i < |rows| ensures TextLess(rows[i].path, Posix(Relative(last, directory))) {
        RowsAmongMeaning(nodes, directory, init, sha256, rows[i]);
        var q :| q in init && q in nodes && nodes[q].File? && rows[i] == TreeRow(nodes, directory, q, sha256);
        var k :| 0 <= k < |init| && init[k] == q;
        assert less(paths[k], last);
      }
    }
  }

  /** What an inventory of a directory lists, and in which order. */
  ghost predicate IsInventory(nodes: Nodes, directory: Path, sha256: Bytes -> string, rows: seq<Row>) {
    && StrictlySorted(rows, RowLess)
    && forall row :: row in rows <==> IsTreeRow(nodes, directory, row, sha256)
  }

  lemma SortedListingIsInventory(nodes: Nodes, directory: Path, listed: seq<Path>, sha256: Bytes -> string)
    requires TreeShaped(nodes)
    requires forall q :: q in listed <==> q in Below(nodes, directory)
    requires forall i, j | 0 <= i < j < |listed| :: listed[i] != listed[j]
    ensures var paths := SortBy(listed, (a: Path, b: Path) => PathLess(directory, a, b));
            IsInventory(nodes, directory, sha256, RowsAmong(nodes, directory, paths, sha256))
  {
    var less := (a: Path, b: Path) => PathLess(directory, a, b);
    var paths := SortBy(listed, less);
    MembersFromMultiset(listed, paths);
    PathLessComparesByKey(directory);
    ListingHasNoTies(nodes, directory, listed);
    SortByStrict(listed, less);
    RowsAmongSorted(nodes, directory, paths, sha256);
    forall row ensures row in RowsAmong(nodes, directory, paths, sha256) <==> IsTreeRow(nodes, directory, row, sha256) {
      RowsAmongMeaning(nodes, directory, paths, sha256, row);
      assert forall q :: q in paths <==> q in Below(nodes, directory);
    }
  }

  method CollectRows(nodes: Nodes, directory: Path, paths: seq<Path>, sha256: Bytes -> string) returns (rows: seq<Row>)
    ensures rows == RowsAmong(nodes, directory, paths, sha256)
  {
    rows := [];
    for k := 0 to |paths|
      invariant rows == RowsAmong(nodes, directory, paths[..k], sha256)
    {
      assert paths[..k + 1][..k] == paths[..k];
      var q := paths[k];
      if q in nodes && nodes[q].File? {
        rows := rows + [TreeRow(nodes, directory, q, sha256)];
      }
    }
    assert paths[..|paths|] == paths;
  }

  /** The sorted listing, and the rows of its files. */
  method TreeInventory(nodes: Nodes, directory: Path, sha256: Bytes -> string) returns (r: Result<seq<Row>>)
    requires TreeShaped(nodes)
    ensures r.Ok? ==> IsInventory(nodes, directory, sha256, r.value) && r.value != []
    ensures r.Err? ==> directory !in nodes || !nodes[directory].Directory? || IsInventory(nodes, directory, sha256, [])
    ensures directory !in nodes || !nodes[directory].Directory? ==> r.Err?
  {
    if directory !in nodes || !nodes[directory].Directory? {
      return Err(NoFiles);
    }
    var listed := Listing(nodes, directory);
    var paths := SortBy(listed, (a: Path, b: Path) => PathLess(directory, a, b));
    SortedListingIsInventory(nodes, directory, listed, sha256);
    var rows := CollectRows(nodes, directory, paths, sha256);
    r := if rows == [] then Err(NoFiles) else Ok(rows);
  }

  // ----- the two inventories

  ghost predicate RowOfFile(entries: seq<Entry>, sha256: Bytes -> string, row: Row) {
    exists k | 0 <= k < |entries| :: !IsDir(entries[k]) && row == ExtractionRow(entries, k, sha256)
  }

  lemma RowOfOneMore(entries: seq<Entry>, last: Entry, sha256: Bytes -> string, row: Row)
    ensures RowOfFile(entries + [last], sha256, row)
            <==> RowOfFile(entries, sha256, row) || (!IsDir(last) && row == FileRow(last, sha256))
  {
    var all, n := entries + [last], |entries|;
    assert all[n] == last;
    if RowOfFile(entries, sha256, row) {
      var k :| 0 <= k < n && !IsDir(entries[k]) && row == ExtractionRow(entries, k, sha256);
      assert all[k] == entries[k] && row == ExtractionRow(all, k, sha256);
    }
    if !IsDir(last) && row == FileRow(last, sha256) {
      assert row == ExtractionRow(all, n, sha256);
    }
    if RowOfFile(all, sha256, row) {
      var k :| 0 <= k < |all| && !IsDir(all[k]) && row == ExtractionRow(all, k, sha256);
      assert k < n ==> entries[k] == all[k] && row == ExtractionRow(entries, k, sha256);
    }
  }

  lemma {:induction false} FileRowsMeaning(entries: seq<Entry>, sha256: Bytes -> string, row: Row)
    ensures row in FileRows(entries, sha256) <==> RowOfFile(entries, sha256, row)
  {
    if entries != [] {
      var init, last := entries[..|entries| - 1], entries[|entries| - 1];
      FileRowsMeaning(init, sha256, row);
      RowOfOneMore(init, last, sha256, row);
      assert entries == init + [last];
    }
  }

  function ExtractionRow(entries: seq<Entry>, k: nat, sha256: Bytes -> string): Row
    requires k < |entries|
  {
    FileRow(entries[k], sha256)
  }

  /** Each file entry declares the size of the bytes it yields. */
  predicate SizesHonest(entries: seq<Entry>) {
    forall k | 0 <= k < |entries| && !IsDir(entries[k]) :: entries[k].size == |entries[k].data|
  }

  lemma {:induction false} FileRowsHaveNoTies(entries: seq<Entry>, sha256: Bytes -> string)
    requires DistinctParts(entries)
    ensures NoTies(FileRows(entries, sha256), RowLess)
  {
    if entries != [] {
      var n := |entries| - 1;
      var init := entries[..n];
      FileRowsHaveNoTies(init, sha256);
      var rows, row := FileRows(init, sha256), FileRow(entries[n], sha256);
      forall i | 0 <= i < |rows| ensures RowLess(rows[i], row) || RowLess(row, rows[i]) {
        FileRowsMeaning(init, sha256, rows[i]);
        var k: nat :| k < |init| && rows[i] == ExtractionRow(init, k, sha256);
        assert ExtractionRow(init, k, sha256) == FileRow(init[k], sha256);
        assert entries[k] == init[k];
        assert rows[i] == FileRow(entries[k], sha256);
        if rows[i].path == row.path {
          PosixInjective(Parts(entries[k].name), Parts(entries[n].name));
          assert false;
        }
        TextLessTrichotomy(rows[i].path, row.path);
      }
    }
  }

  /** The row of the bytes a file entry yields. */
  function YieldedRow(e: Entry, sha256: Bytes -> string): Row {
    Row(NameOf(e), |e.data|, sha256(e.data))
  }

  /** After extraction the files below the destination are the file entries. */
  lemma ExtractedRow(base: Nodes, nodes: Nodes, destination: Path, entries: seq<Entry>, sha256: Bytes -> string, k: nat)
    requires k < |entries| && !IsDir(entries[k])
    requires TreeShaped(base) && destination !in base && Shape(base, nodes, destination, entries, |entries|)
    ensures IsTreeRow(nodes, destination, YieldedRow(entries[k], sha256), sha256)
  {
    var target := Target(destination, entries[k]);
    assert target <= target && target in nodes;
    assert destination <= destination;
    assert nodes[target] == File(entries[k].data);
    assert target != destination;
    assert Relative(target, destination) == Parts(entries[k].name);
    assert target in Below(nodes, destination);
    assert YieldedRow(entries[k], sha256) == TreeRow(nodes, destination, target, sha256);
  }

  lemma TreeRowIsEntry(
    base: Nodes, nodes: Nodes, destination: Path, entries: seq<Entry>, sha256: Bytes -> string, row: Row)
    requires TreeShaped(base) && destination !in base && Shape(base, nodes, destination, entries, |entries|)
    requires IsTreeRow(nodes, destination, row, sha256)
    ensures exists k | 0 <= k < |entries| ::
              !IsDir(entries[k]) && row == YieldedRow(entries[k], sha256)
  {
    var q :| q in Below(nodes, destination) && nodes[q].File? && row == TreeRow(nodes, destination, q, sha256);
    if q in base { NothingBelow(base, destination, q); }
    var k :| 0 <= k < |entries| && !IsDir(entries[k]) && q == Target(destination, entries[k]);
    assert Relative(q, destination) == Parts(entries[k].name);
    assert nodes[q] == File(entries[k].data);
  }

  /** The round trip: after a successful extraction, the inventory of the destination and the
      inventory of the archive are the same rows in the same order, exactly when the archive's
      headers declare the sizes its entries have. */
  lemma InventoriesAgreeIff(
    base: Nodes, nodes: Nodes, destination: Path, entries: seq<Entry>, fold: string -> string, sha256: Bytes -> string,
    treeRows: seq<Row>)
    requires TreeShaped(base) && destination !in base && InventoryAccepted(entries, fold)
    requires Shape(base, nodes, destination, entries, |entries|)
    requires IsInventory(nodes, destination, sha256, treeRows)
    ensures treeRows == SortBy(FileRows(entries, sha256), RowLess) <==> SizesHonest(entries)
  {
    var fileRows := FileRows(entries, sha256);
    var zipRows := SortBy(fileRows, RowLess);
    AcceptedIsDistinct(entries, fold);
    FileRowsHaveNoTies(entries, sha256);
    RowLessComparesByKey();
    SortByStrict(fileRows, RowLess);
    MembersFromMultiset(fileRows, zipRows);
    if SizesHonest(entries) {
      forall row ensures row in treeRows <==> row in zipRows {
        FileRowsMeaning(entries, sha256, row);
        if row in zipRows {
          var k :| 0 <= k < |entries| && !IsDir(entries[k]) && row == ExtractionRow(entries, k, sha256);
          ExtractedRow(base, nodes, destination, entries, sha256, k);
        }
        if row in treeRows {
          TreeRowIsEntry(base, nodes, destination, entries, sha256, row);
          var k :| 0 <= k < |entries| && !IsDir(entries[k]) && row == YieldedRow(entries[k], sha256);
          assert row == ExtractionRow(entries, k, sha256);
        }
      }
      StrictlySortedUnique(treeRows, zipRows, RowLess);
    } else {
      var k :| 0 <= k < |entries| && !IsDir(entries[k]) && entries[k].size != |entries[k].data|;
      FileRowsMeaning(entries, sha256, ExtractionRow(entries, k, sha256));
      MislabelledRow(base, nodes, destination, entries, fold, sha256, k);
      assert ExtractionRow(entries, k, sha256) in zipRows;
    }
  }

  /** A wrong declared size gives a row no extracted file has. */
  lemma MislabelledRow(
    base: Nodes, nodes: Nodes, destination: Path, entries: seq<Entry>, fold: string -> string, sha256: Bytes -> string,
    k: nat)
    requires k < |entries| && !IsDir(entries[k]) && entries[k].size != |entries[k].data|
    requires TreeShaped(base) && destination !in base && DistinctParts(entries)
    requires Shape(base, nodes, destination, entries, |entries|)
    ensures !IsTreeRow(nodes, destination, ExtractionRow(entries, k, sha256), sha256)
  {
    var row := ExtractionRow(entries, k, sha256);
    if IsTreeRow(nodes, destination, row, sha256) {
      TreeRowIsEntry(base, nodes, destination, entries, sha256, row);
      var j :| 0 <= j < |entries| && !IsDir(entries[j]) && row == YieldedRow(entries[j], sha256);
      PosixInjective(Parts(entries[j].name), Parts(entries[k].name));
      assert false;
    }
  }

  // ----- inventory, extraction, inventory

  /** The new nodes over an extracted archive are below the destination's ancestors. */
  lemma ExtractedAncestor(base: Nodes, nodes: Nodes, destination: Path, entries: seq<Entry>, i: nat, p: Path, q: Path)
    requires TreeShaped(base) && destination !in base && i < |entries|
    requires Shape(base, nodes, destination, entries, |entries|) && ConflictFree(entries, |entries|)
    requires p <= q <= Target(destination, entries[i]) && p != q
    ensures p in nodes && nodes[p].Directory?
  {
    var target := Target(destination, entries[i]);
    assert destination <= target && p <= target;
    PrefixesComparable(p, destination, target);
    if p in base {
      NothingBelow(base, destination, p);
    } else if nodes[p].File? {
      var j :| 0 <= j < |entries| && !IsDir(entries[j]) && p == Target(destination, entries[j]);
      assert p != target;
      TargetPrefix(destination, Parts(entries[j].name), Parts(entries[i].name));
      assert Conflict(entries, j, i);
    }
  }

  /** Extraction keeps the file system a tree. */
  lemma ExtractionKeepsTree(base: Nodes, nodes: Nodes, destination: Path, entries: seq<Entry>)
    requires TreeShaped(base) && destination !in base && PlainParts(destination)
    requires Shape(base, nodes, destination, entries, |entries|) && ConflictFree(entries, |entries|)
    ensures TreeShaped(nodes)
  {
    forall q | q in nodes ensures PlainParts(q) {
      if q !in base && !(q <= destination) {
        var i :| 0 <= i < |entries| && q <= Target(destination, entries[i]);
        assert PlainParts(Target(destination, entries[i]));
      }
    }
    forall p, q | q in nodes && p <= q && p != q ensures p in nodes && nodes[p].Directory? {
      if q in base {
        assert p in base && base[p].Directory?;
      } else if q <= destination {
        assert p <= destination;
      } else {
        var i :| 0 <= i < |entries| && q <= Target(destination, entries[i]);
        ExtractedAncestor(base, nodes, destination, entries, i, p, q);
      }
    }
    assert [] <= destination;
  }

  lemma SomethingExtracted(
    base: Nodes, nodes: Nodes, destination: Path, entries: seq<Entry>, fold: string -> string, sha256: Bytes -> string)
    requires TreeShaped(base) && destination !in base && InventoryAccepted(entries, fold)
    requires Shape(base, nodes, destination, entries, |entries|)
    ensures !IsInventory(nodes, destination, sha256, [])
  {
    var k :| 0 <= k < |entries| && !IsDir(entries[k]);
    var row := YieldedRow(entries[k], sha256);
    ExtractedRow(base, nodes, destination, entries, sha256, k);
    assert row !in [];
  }

  /** Inventory of the archive, extraction, inventory of the destination: after an extraction the last
      always succeeds, and equals the first exactly when the declared sizes are honest. */
  method ExtractBetweenInventories(
    fs: FileSystem, destination: Path, entries: seq<Entry>, fold: string -> string, sha256: Bytes -> string)
    returns (zip: Result<seq<Row>>, extracted: Result<()>, tree: Result<seq<Row>>)
    requires TreeShaped(fs.nodes) && PlainParts(destination)
    modifies fs
    ensures extracted.Ok? <==>
            && destination !in old(fs.nodes)
            && InventoryAccepted(entries, fold)
            && CanMakeDirs(old(fs.nodes), destination)
            && ConflictFree(entries, |entries|)
    ensures OutsideUntouched(old(fs.nodes), fs.nodes, destination)
    ensures extracted.Ok? ==> TreeShaped(fs.nodes) && zip.Ok? && tree.Ok?
    ensures extracted.Ok? ==> (tree.value == zip.value <==> SizesHonest(entries))
  {
    ghost var base := fs.nodes;
    zip := ZipInventory(entries, fold, sha256);
    extracted, tree := Err(DestinationExists), Err(NoFiles);
    if zip.Err? {
      return;
    }
    extracted := SafeExtract(fs, destination, entries, fold, sha256);
    if extracted.Err? {
      return;
    }
    ExtractionKeepsTree(base, fs.nodes, destination, entries);
    SomethingExtracted(base, fs.nodes, destination, entries, fold, sha256);
    tree := TreeInventory(fs.nodes, destination, sha256);
    InventoriesAgreeIff(base, fs.nodes, destination, entries, fold, sha256, tree.value);
  }

  /** The declared size is not compared with the bytes read, so an accepted archive can disagree
      with its own extraction: one file "a" that declares one byte and has none. */
  lemma MislabelledArchiveAccepted(fold: string -> string)
    ensures var entries := [Entry("a", Unset, false, 1, [])];
            InventoryAccepted(entries, fold) && ConflictFree(entries, 1) && !SizesHonest(entries)
  {
    var e := Entry("a", Unset, false, 1, []);
    var entries := [e];
    assert "a"[1..] == "" && "" + ['a'] == "a";
    assert PartsFrom("", "a") == ["a"];
    assert Parts("a") == ["a"];
    assert ["a"][0] != "..";
    assert !UnsafeName("a");
    assert EntryAccepted(entries, fold, 0);
    assert AcceptedUpTo(entries, fold, 0);
    assert entries[..0] == [] && TotalSize([]) == 0;
    assert TotalSize(entries) == 1;
    assert !IsDir(entries[0]);
  }
}
