/** Projection of the read state and of the identity around a reflash
    (scripts/core_flash_only_d1l.py). */
module ReflashReadState {
  import opened Common
  import opened Json
  import opened ReflashStores

  // ----- fingerprints

  predicate IsHex(c: char) {
    '0' <= c <= '9' || 'a' <= c <= 'f' || 'A' <= c <= 'F'
  }

  /** Sixteen hexadecimal digits, in either case. */
  predicate IsFingerprint(v: Value) {
    v.Str? && |v.s| == 16 && forall c | c in v.s :: IsHex(c)
  }

  function Lower(s: string): string {
    seq(|s|, i requires 0 <= i < |s| => if 'A' <= s[i] <= 'Z' then s[i] - 'A' + 'a' else s[i])
  }

  function Upper(s: string): string {
    seq(|s|, i requires 0 <= i < |s| => if 'a' <= s[i] <= 'z' then s[i] - 'a' + 'A' else s[i])
  }

  function Fingerprint(row: Dict): string {
    if Get(row, "fingerprint").Str? then Lower(Get(row, "fingerprint").s) else ""
  }

  // ----- visible threads

  const THREAD_FIELDS: set<string> := {"fingerprint", "last_read_seq", "newest_rx_seq", "unread", "muted"}

  predicate ThreadOk(v: Value) {
    && v.Obj? && v.fields.Keys == THREAD_FIELDS
    && IsFingerprint(Get(v.fields, "fingerprint"))
    && AtLeast(Get(v.fields, "last_read_seq"), 0) && AtLeast(Get(v.fields, "unread"), 0)
    && AtLeast(Get(v.fields, "newest_rx_seq"), Get(v.fields, "last_read_seq").i)
    && Get(v.fields, "muted").Bool?
  }

  /** The first `n` threads are well formed, and no two share a fingerprint. */
  predicate ThreadsOk(threads: seq<Value>, n: nat)
    requires n <= |threads|
  {
    && (forall i | 0 <= i < n :: ThreadOk(threads[i]))
    && forall i, j | 0 <= i < j < n :: Fingerprint(Fields(threads[i])) != Fingerprint(Fields(threads[j]))
  }

  function Seen(threads: seq<Value>, n: nat): set<string>
    requires n <= |threads|
  {
    set i | 0 <= i < n :: Fingerprint(Fields(threads[i]))
  }

  method CheckThreads(threads: seq<Value>) returns (ok: bool)
    ensures ok <==> ThreadsOk(threads, |threads|)
  {
    var seen: set<string> := {};
    for k := 0 to |threads|
      invariant ThreadsOk(threads, k) && seen == Seen(threads, k)
    {
      if !ThreadOk(threads[k]) {
        return false;
      }
      var fingerprint := Fingerprint(threads[k].fields);
      if fingerprint in seen {
        var i :| 0 <= i < k && Fingerprint(Fields(threads[i])) == fingerprint;
        return false;
      }
      seen := seen + {fingerprint};
    }
    ok := true;
  }

  // ----- persisted cursors

  predicate CursorOk(v: Value) {
    && v.Obj? && v.fields.Keys == {"fingerprint", "last_read_seq"}
    && IsFingerprint(Get(v.fields, "fingerprint")) && AtLeast(Get(v.fields, "last_read_seq"), 0)
  }

  /** The cursors up to the k-th, by fingerprint, if each is well formed and none repeats. */
  function CursorsUpTo(rows: seq<Value>, k: nat): Option<map<string, int>>
    requires k <= |rows|
  {
    if k == 0 then Some(map[])
    else
      var before := CursorsUpTo(rows, k - 1);
      if before.None? || !CursorOk(rows[k - 1]) || Fingerprint(rows[k - 1].fields) in before.value then None
      else Some(before.value[Fingerprint(rows[k - 1].fields) := Get(rows[k - 1].fields, "last_read_seq").i])
  }

  lemma {:induction false} NoCursorsStay(rows: seq<Value>, k: nat, n: nat)
    requires k <= n <= |rows| && CursorsUpTo(rows, k).None?
    ensures CursorsUpTo(rows, n).None?
    decreases n
  {
    if k < n { NoCursorsStay(rows, k, n - 1); }
  }

  method ProjectCursors(rows: seq<Value>) returns (r: Option<map<string, int>>)
    ensures r == CursorsUpTo(rows, |rows|)
  {
    var projected: map<string, int> := map[];
    for k := 0 to |rows|
      invariant CursorsUpTo(rows, k) == Some(projected)
    {
      if !CursorOk(rows[k]) || Fingerprint(rows[k].fields) in projected {
        NoCursorsStay(rows, k + 1, |rows|);
        return None;
      }
      projected := projected[Fingerprint(rows[k].fields) := Get(rows[k].fields, "last_read_seq").i];
    }
    r := Some(projected);
  }

  /** The projection has one cursor for each row, under its fingerprint. */
  lemma {:induction false} CursorsByFingerprint(rows: seq<Value>, k: nat)
    requires k <= |rows| && CursorsUpTo(rows, k).Some?
    ensures |CursorsUpTo(rows, k).value| == k
    ensures forall i | 0 <= i < k ::
              && CursorOk(rows[i])
              && Fingerprint(Fields(rows[i])) in CursorsUpTo(rows, k).value
              && CursorsUpTo(rows, k).value[Fingerprint(Fields(rows[i]))] == Get(Fields(rows[i]), "last_read_seq").i
  {
    if k > 0 {
      CursorsByFingerprint(rows, k - 1);
    }
  }

  // ----- the read state

  const CURSOR_CAPACITY: int := 16

  /** The keys read from the decoded `messages unread` response. `unread` lists the five counters that
      are only checked; `clean` stands for the persistence and card flags. */
  datatype ReadStateResult = ReadStateResult(
    unread: seq<Value>, threadCount: Value, cursorCount: Value, lastPublicReadSeq: Value, lastDmReadSeq: Value,
    markReadCount: Value, cursorCapacity: Value, threads: Value, cursors: Value, clean: bool)

  datatype ReadState = ReadState(
    cursorCapacity: Value, lastPublicReadSeq: int, lastDmReadSeq: int, markReadCount: int, dmCursors: map<string, int>)

  predicate ReadHeaderOk(r: ReadStateResult) {
    && (forall i | 0 <= i < |r.unread| :: AtLeast(r.unread[i], 0))
    && AtLeast(r.threadCount, 0) && AtLeast(r.cursorCount, 0)
    && AtLeast(r.lastPublicReadSeq, 0) && AtLeast(r.lastDmReadSeq, 0) && AtLeast(r.markReadCount, 0)
    && PyEq(r.cursorCapacity, Int(CURSOR_CAPACITY))
    && r.threads.Arr? && r.threadCount.i == |r.threads.items|
    && r.cursors.Arr? && r.cursorCount.i == |r.cursors.items| <= CURSOR_CAPACITY
    && r.clean
  }

  predicate ReadStateOk(r: ReadStateResult) {
    && ReadHeaderOk(r)
    && ThreadsOk(r.threads.items, |r.threads.items|)
    && CursorsUpTo(r.cursors.items, |r.cursors.items|).Some?
  }

  function ReadStateOf(r: ReadStateResult): ReadState
    requires ReadStateOk(r)
  {
    ReadState(
      r.cursorCapacity, r.lastPublicReadSeq.i, r.lastDmReadSeq.i, r.markReadCount.i,
      CursorsUpTo(r.cursors.items, |r.cursors.items|).value)
  }

  method ProjectReadState(r: ReadStateResult) returns (s: Option<ReadState>)
    ensures s.Some? <==> ReadStateOk(r)
    ensures s.Some? ==> s.value == ReadStateOf(r)
  {
    if !ReadHeaderOk(r) {
      return None;
    }
    var threads := CheckThreads(r.threads.items);
    if !threads {
      return None;
    }
    var cursors := ProjectCursors(r.cursors.items);
    if cursors.None? {
      return None;
    }
    s := Some(ReadState(r.cursorCapacity, r.lastPublicReadSeq.i, r.lastDmReadSeq.i, r.markReadCount.i, cursors.value));
  }

  // ----- the identity

  datatype IdentityResult = IdentityResult(publicKey: Value, ready: Value, fingerprint: Value, role: Value)

  function KeyStart(key: string): string {
    if |key| < 16 then key else key[..16]
  }

  /** The key is one `exactKey` recognises, and the device's fingerprint is its start in upper case. */
  predicate IdentityOk(identity: IdentityResult, exactKey: Value -> Option<string>) {
    var key := exactKey(identity.publicKey);
    && key.Some? && identity.ready == Bool(true)
    && identity.fingerprint == Str(Upper(KeyStart(key.value)))
    && identity.role == Str("desk_companion")
  }
}
