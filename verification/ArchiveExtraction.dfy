/** Inventory of a ZIP archive, its extraction, and the inventory of the extracted tree
    (scripts/capture_core_actions_run_d1l.py). */
module ArchiveExtraction {
  import opened Common
  import opened Sorting

  type Bytes = seq<int>
  type Path = seq<string>

  /** The file type an entry's external attributes carry. */
  datatype EntryType = Unset | Regular | Symlink | OtherType

  /** One entry: its raw name, what its header declares, and the bytes reading it yields. */
  datatype Entry = Entry(name: string, kind: EntryType, encrypted: bool, size: nat, data: Bytes)

  datatype Row = Row(path: string, size: nat, sha256: string)

  datatype ArchiveError =
    | UnsafeMemberPath(name: string) | NotRegularFile(name: string) | Encrypted(name: string)
    | TooManyEntries | TooLarge | DuplicatePath(name: string) | NoFiles
    | DestinationExists | CannotCreate(name: string)

  datatype Result<T> = Ok(value: T) | Err(error: ArchiveError)

  const MAX_ZIP_ENTRIES: nat := 100_000
  const MAX_UNCOMPRESSED_BYTES: nat := 8 * 1024 * 1024 * 1024

  // ----- member paths

  predicate IsDir(e: Entry) {
    e.name != "" && e.name[|e.name| - 1] == '/'
  }

  predicate IsLetter(c: char) {
    'a' <= c <= 'z' || 'A' <= c <= 'Z'
  }

  predicate UnsafeName(name: string) {
    || name == ""
    || '\0' in name || '\\' in name
    || name[0] == '/'
    || (|name| >= 2 && IsLetter(name[0]) && name[1] == ':')
  }

  /** The components of a POSIX path: empty ones and "." disappear. */
  function Parts(name: string): (parts: Path)
    ensures PlainParts(parts)
  {
    PartsFrom(name, "")
  }

  function Component(part: string): Path {
    if part == "" || part == "." then [] else [part]
  }

  function PartsFrom(name: string, pending: string): (parts: Path)
    requires '/' !in pending
    ensures PlainParts(parts)
    decreases |name|
  {
    if name == "" then Component(pending)
    else if name[0] == '/' then Component(pending) + PartsFrom(name[1..], "")
    else PartsFrom(name[1..], pending + [name[0]])
  }

  function Join(parts: Path): string {
    if parts == [] then "" else if |parts| == 1 then parts[0] else parts[0] + "/" + Join(parts[1..])
  }

  /** `as_posix`: the empty path prints as ".". */
  function Posix(parts: Path): string {
    if parts == [] then "." else Join(parts)
  }

  function MemberPath(e: Entry): Result<Path> {
    if UnsafeName(e.name) || ".." in Parts(e.name) then Err(UnsafeMemberPath(e.name))
    else if e.kind.Symlink? || (!IsDir(e) && e.kind.OtherType?) then Err(NotRegularFile(e.name))
    else if e.encrypted then Err(Encrypted(e.name))
    else Ok(Parts(e.name))
  }

  predicate Plain(part: string) {
    part != "" && part != "." && '/' !in part
  }

  predicate PlainParts(parts: Path) {
    forall i | 0 <= i < |parts| :: Plain(parts[i])
  }

  lemma {:induction false} FirstSlash(a: string, s: string, b: string, t: string)
    requires '/' !in a && '/' !in b
    requires a + "/" + s == b + "/" + t
    ensures a == b && s == t
  {
    var x, y := a + "/" + s, b + "/" + t;
    assert a != "" ==> a[0] in a && x[0] == a[0];
    assert b != "" ==> b[0] in b && y[0] == b[0];
    assert a == "" ==> x[0] == '/' && x[1..] == s;
    assert b == "" ==> y[0] == '/' && y[1..] == t;
    if a != "" {
      assert b != "";
      assert x[1..] == a[1..] + "/" + s && y[1..] == b[1..] + "/" + t;
      FirstSlash(a[1..], s, b[1..], t);
      assert a == [a[0]] + a[1..] && b == [b[0]] + b[1..];
    } else {
      assert b == "";
    }
  }

  /** What the text of a path shows of its length. */
  lemma JoinShape(a: Path)
    requires PlainParts(a)
    ensures '/' in Join(a) <==> |a| > 1
    ensures Join(a) == "" <==> a == []
    ensures a != [] ==> Join(a) != "."
  {
    if a != [] {
      assert Plain(a[0]);
      if |a| > 1 {
        assert Join(a)[|a[0]|] == '/';
      }
    }
  }

  lemma {:induction false} JoinInjective(a: Path, b: Path)
    requires PlainParts(a) && PlainParts(b)
    requires Join(a) == Join(b)
    ensures a == b
  {
    JoinShape(a);
    JoinShape(b);
    if |a| > 1 {
      assert Plain(a[0]) && Plain(b[0]);
      FirstSlash(a[0], Join(a[1..]), b[0], Join(b[1..]));
      JoinInjective(a[1..], b[1..]);
      assert a == [a[0]] + a[1..] && b == [b[0]] + b[1..];
    } else if a != [] {
      assert a == [a[0]] && b == [b[0]];
    }
  }

  lemma PosixInjective(a: Path, b: Path)
    requires PlainParts(a) && PlainParts(b)
    requires Posix(a) == Posix(b)
    ensures a == b
  {
    JoinShape(a);
    JoinShape(b);
    if a != [] && b != [] {
      JoinInjective(a, b);
    }
  }

  // ----- `zip_inventory`

  function TotalSize(entries: seq<Entry>): nat {
    if entries == [] then 0 else TotalSize(entries[..|entries| - 1]) + entries[|entries| - 1].size
  }

  function NameOf(e: Entry): string {
    Posix(Parts(e.name))
  }

  function FileRow(e: Entry, sha256: Bytes -> string): Row {
    Row(NameOf(e), e.size, sha256(e.data))
  }

  /** The rows of the file entries, in archive order. */
  function FileRows(entries: seq<Entry>, sha256: Bytes -> string): seq<Row> {
    if entries == [] then []
    else
      var last := entries[|entries| - 1];
      FileRows(entries[..|entries| - 1], sha256) + if IsDir(last) then [] else [FileRow(last, sha256)]
  }

  predicate RowLess(a: Row, b: Row) {
    TextLess(a.path, b.path)
  }

  /** Entry `k` is safe and its path and folded path are new. */
  predicate EntryAccepted(entries: seq<Entry>, fold: string -> string, k: nat)
    requires k < |entries|
  {
    && MemberPath(entries[k]).Ok?
    && forall i | 0 <= i < k ::
         NameOf(entries[i]) != NameOf(entries[k]) && fold(NameOf(entries[i])) != fold(NameOf(entries[k]))
  }

  predicate AcceptedUpTo(entries: seq<Entry>, fold: string -> string, n: nat)
    requires n <= |entries|
  {
    n == 0 || (AcceptedUpTo(entries, fold, n - 1) && EntryAccepted(entries, fold, n - 1))
  }

  lemma {:induction false} AcceptedEach(entries: seq<Entry>, fold: string -> string, n: nat)
    requires n <= |entries|
    ensures AcceptedUpTo(entries, fold, n) <==> forall k | 0 <= k < n :: EntryAccepted(entries, fold, k)
  {
    if n > 0 {
      AcceptedEach(entries, fold, n - 1);
    }
  }

  lemma {:induction false} NoRowsNoFiles(entries: seq<Entry>, sha256: Bytes -> string)
    ensures FileRows(entries, sha256) == [] <==> forall k | 0 <= k < |entries| :: IsDir(entries[k])
  {
    if entries != [] {
      NoRowsNoFiles(entries[..|entries| - 1], sha256);
    }
  }

  predicate InventoryAccepted(entries: seq<Entry>, fold: string -> string) {
    && |entries| <= MAX_ZIP_ENTRIES
    && TotalSize(entries) <= MAX_UNCOMPRESSED_BYTES
    && AcceptedUpTo(entries, fold, |entries|)
    && !(forall k | 0 <= k < |entries| :: IsDir(entries[k]))
  }

  function NamesSeen(entries: seq<Entry>): set<string> {
    set i | 0 <= i < |entries| :: NameOf(entries[i])
  }

  function FoldedSeen(entries: seq<Entry>, fold: string -> string): set<string> {
    set i | 0 <= i < |entries| :: fold(NameOf(entries[i]))
  }

  /** The checks on one entry, against the names of the entries before it. */
  method CheckEntry(
    entries: seq<Entry>, fold: string -> string, k: nat, seen: set<string>, seenFolded: set<string>)
    returns (error: Option<ArchiveError>, newSeen: set<string>, newFolded: set<string>)
    requires k < |entries|
    requires seen == NamesSeen(entries[..k]) && seenFolded == FoldedSeen(entries[..k], fold)
    ensures error.None? <==> EntryAccepted(entries, fold, k)
    ensures error.None? ==> newSeen == NamesSeen(entries[..k + 1]) && newFolded == FoldedSeen(entries[..k + 1], fold)
  {
    var before := entries[..k];
    newSeen, newFolded := seen, seenFolded;
    var member := MemberPath(entries[k]);
    if member.Err? {
      return Some(member.error), seen, seenFolded;
    }
    var name := Posix(member.value);
    assert forall i | 0 <= i < k ::
        NameOf(before[i]) in seen && fold(NameOf(before[i])) in seenFolded && before[i] == entries[i];
    if name in seen || fold(name) in seenFolded {
      return Some(DuplicatePath(name)), seen, seenFolded;
    }
    newSeen, newFolded := seen + {name}, seenFolded + {fold(name)};
    var upTo := entries[..k + 1];
    assert forall i | 0 <= i < k :: upTo[i] == before[i];
    assert upTo[k] == entries[k];
    assert newSeen == NamesSeen(upTo);
    assert newFolded == FoldedSeen(upTo, fold);
    error := None;
  }

  method ZipInventory(entries: seq<Entry>, fold: string -> string, sha256: Bytes -> string)
    returns (r: Result<seq<Row>>)
    ensures r.Ok? <==> InventoryAccepted(entries, fold)
    ensures r.Ok? ==> r.value == SortBy(FileRows(entries, sha256), RowLess)
  {
    if |entries| > MAX_ZIP_ENTRIES {
      return Err(TooManyEntries);
    }
    if TotalSize(entries) > MAX_UNCOMPRESSED_BYTES {
      return Err(TooLarge);
    }
    var rows: seq<Row> := [];
    var seen: set<string>, seenFolded: set<string> := {}, {};
    for k := 0 to |entries|
      invariant rows == FileRows(entries[..k], sha256)
      invariant AcceptedUpTo(entries, fold, k)
      invariant seen == NamesSeen(entries[..k]) && seenFolded == FoldedSeen(entries[..k], fold)
    {
      var error;
      error, seen, seenFolded := CheckEntry(entries, fold, k, seen, seenFolded);
      if error.Some? {
        AcceptedEach(entries, fold, |entries|);
        return Err(error.value);
      }
      assert entries[..k + 1][..k] == entries[..k];
      if !IsDir(entries[k]) {
        rows := rows + [FileRow(entries[k], sha256)];
      }
    }
    assert entries[..|entries|] == entries;
    NoRowsNoFiles(entries, sha256);
    if rows == [] {
      return Err(NoFiles);
    }
    r := Ok(SortBy(rows, RowLess));
  }
}
