/** What a firmware reflash must keep (scripts/core_flash_only_d1l.py): the contact projection, the
    "preserved" relation between two projections, and what it pins. */
module ReflashRetention {
  import opened Common
  import opened Json
  import opened Sorting
  import opened ReflashStores
  import opened ReflashReadState

  // ----- contacts

  /** The retained part of a contact. An empty key marks a contact only heard so far. */
  datatype Contact = Contact(
    fingerprint: string, publicKey: string, alias: string, favorite: bool, muted: bool, createdMs: int)

  /** The row's identity: a validated key, if it is one, and a normalised fingerprint, if it is one. */
  datatype Identity = Identity(exactKey: Value -> Option<string>, fingerprint: Value -> Option<string>)

  /** A full key belongs to a canonical contact with the matching fingerprint; an empty one to a
      contact that is not canonical and has no capability. */
  predicate KeyOk(row: Dict, ids: Identity) {
    var key := ids.exactKey(Get(row, "public_key"));
    var fingerprint := ids.fingerprint(Get(row, "fingerprint"));
    && fingerprint.Some?
    && Get(row, "canonical").Bool? && Get(row, "can_dm").Bool? && Get(row, "can_admin").Bool?
    && match key
       case Some(k) => |k| >= 16 && fingerprint.value == k[..16] && Get(row, "canonical").b
       case None =>
         Get(row, "public_key") == Str("")
         && !Get(row, "canonical").b && !Get(row, "can_dm").b && !Get(row, "can_admin").b
  }

  predicate ContactRowOk(row: Dict, ids: Identity, required: set<string>) {
    && required <= row.Keys
    && KeyOk(row, ids)
    && Get(row, "alias").Str? && Get(row, "favorite").Bool? && Get(row, "muted").Bool?
    && AtLeast(Get(row, "created_ms"), 0)
  }

  function ContactOf(row: Dict, ids: Identity, required: set<string>): Contact
    requires ContactRowOk(row, ids, required)
  {
    var key := ids.exactKey(Get(row, "public_key"));
    Contact(
      ids.fingerprint(Get(row, "fingerprint")).value,
      if key.Some? then key.value else "",
      Get(row, "alias").s, Get(row, "favorite").b, Get(row, "muted").b, Get(row, "created_ms").i)
  }

  type Contacts = map<string, Contact>

  /** The projection of the rows up to the k-th, if each is valid and no fingerprint repeats. */
  function ContactsUpTo(rows: seq<Dict>, k: nat, ids: Identity, required: set<string>): Option<Contacts>
    requires k <= |rows|
  {
    if k == 0 then Some(map[])
    else
      var before := ContactsUpTo(rows, k - 1, ids, required);
      if before.None? || !ContactRowOk(rows[k - 1], ids, required) then None
      else
        var contact := ContactOf(rows[k - 1], ids, required);
        if contact.fingerprint in before.value then None else Some(before.value[contact.fingerprint := contact])
  }

  lemma {:induction false} NoneStays(rows: seq<Dict>, k: nat, n: nat, ids: Identity, required: set<string>)
    requires k <= n <= |rows| && ContactsUpTo(rows, k, ids, required).None?
    ensures ContactsUpTo(rows, n, ids, required).None?
    decreases n
  {
    if k < n { NoneStays(rows, k, n - 1, ids, required); }
  }

  method ContactRetentionProjection(rows: seq<Dict>, ids: Identity, required: set<string>) returns (r: Option<Contacts>)
    ensures r == ContactsUpTo(rows, |rows|, ids, required)
  {
    var projected: Contacts := map[];
    for k := 0 to |rows|
      invariant ContactsUpTo(rows, k, ids, required) == Some(projected)
    {
      var row := rows[k];
      if !ContactRowOk(row, ids, required) {
        NoneStays(rows, k + 1, |rows|, ids, required);
        return None;
      }
      var contact := ContactOf(row, ids, required);
      if contact.fingerprint in projected {
        NoneStays(rows, k + 1, |rows|, ids, required);
        return None;
      }
      projected := projected[contact.fingerprint := contact];
    }
    r := Some(projected);
  }

  /** The projection has one contact for each row, under its fingerprint. */
  lemma {:induction false} ContactsByFingerprint(rows: seq<Dict>, k: nat, ids: Identity, required: set<string>)
    requires k <= |rows| && ContactsUpTo(rows, k, ids, required).Some?
    ensures var contacts := ContactsUpTo(rows, k, ids, required).value;
            && |contacts| == k
            && (forall i | 0 <= i < k ::
                  && ContactRowOk(rows[i], ids, required)
                  && ContactOf(rows[i], ids, required).fingerprint in contacts
                  && contacts[ContactOf(rows[i], ids, required).fingerprint] == ContactOf(rows[i], ids, required))
            && (forall f | f in contacts :: contacts[f].fingerprint == f
                  && (contacts[f].publicKey != "" ==>
                    |contacts[f].publicKey| >= 16 && contacts[f].publicKey[..16] == f))
  {
    if k > 0 {
      ContactsByFingerprint(rows, k - 1, ids, required);
    }
  }

  // ----- the projection

  const CHANNEL_CAPACITY: int := 8

  datatype Cursor = Cursor(unread: int, newestMessageSeq: int, readThroughSeq: int)

  datatype ContactState = ContactState(
    capacity: Value, nextSeq: int, totalWritten: int, droppedOldest: int, failures: int)

  datatype Retained = Retained(
    settings: Value, channels: Value, identityKey: string,
    channelCapacity: Value, activeChannel: string, channelRevision: int, channelCursors: map<string, Cursor>,
    publicMessages: Store, directMessages: Store, contacts: Contacts, contactState: ContactState, readState: ReadState)

  /** Of the checks on an accepted projection, the ones retention rests on. */
  ghost predicate AcceptedProjection(s: Retained, canon: CanonText) {
    && ValidStore(Public, s.publicMessages, canon)
    && ValidStore(Direct, s.directMessages, canon)
    && PyEq(s.channelCapacity, Int(CHANNEL_CAPACITY))
    && PyEq(s.readState.cursorCapacity, Int(CURSOR_CAPACITY))
    && PyEq(s.contactState.capacity, Int(CAPACITY))
    && s.contactState.failures >= 0
    && |s.contacts| <= CAPACITY
  }

  // ----- from a capture to the projection

  /** The keys read from the decoded `contacts` response. `clean` stands for its persistence and
      card flags. */
  datatype ContactResult = ContactResult(
    entries: Value, count: Value, capacity: Value, nextSeq: Value, totalWritten: Value, droppedOldest: Value,
    failures: Value, clean: bool)

  /** The settings and channels of a capture; `exact` stands for the checks on them beyond the
      channel capacity. */
  datatype Rest = Rest(
    exact: bool, settings: Value, channels: Value, channelCapacity: Value, activeChannel: string, channelRevision: int,
    channelCursors: map<string, Cursor>)

  /** The two pages of a store, and its persistence and card flags. */
  datatype Pages = Pages(first: StorePage, second: StorePage, clean: bool)

  datatype ReflashCapture = ReflashCapture(
    rest: Rest, contacts: ContactResult, readState: ReadStateResult, publicPages: Pages, directPages: Pages,
    identity: IdentityResult)

  /** The fields every contact row must have, and how its identity is read. */
  datatype Reader = Reader(ids: Identity, required: set<string>, canon: CanonText)

  predicate ContactSeqOk(row: Dict, nextSeq: int) {
    AtLeast(Get(row, "seq"), 1) && Get(row, "seq").i < nextSeq
  }

  function ContactRows(c: ContactResult): seq<Dict> {
    if c.entries.Arr? then seq(|c.entries.items|, i requires 0 <= i < |c.entries.items| => Fields(c.entries.items[i]))
    else []
  }

  predicate ContactHeaderOk(c: ContactResult) {
    && c.entries.Arr? && (forall i | 0 <= i < |c.entries.items| :: c.entries.items[i].Obj?)
    && AtLeast(c.count, 0) && c.count.i == |ContactRows(c)| <= CAPACITY && PyEq(c.capacity, Int(CAPACITY))
    && AtLeast(c.nextSeq, 1) && (forall i | 0 <= i < |ContactRows(c)| :: ContactSeqOk(ContactRows(c)[i], c.nextSeq.i))
    && AtLeast(c.totalWritten, c.count.i) && AtLeast(c.droppedOldest, 0) && AtLeast(c.failures, 0)
    && c.clean
  }

  predicate RestOk(rest: Rest) {
    rest.exact && PyEq(rest.channelCapacity, Int(CHANNEL_CAPACITY))
  }

  function SortedContacts(c: ContactResult, canon: CanonText): seq<Dict> {
    SortBy(ContactRows(c), CanonLess(canon))
  }

  function ContactsOf(c: ContactResult, reader: Reader): Option<Contacts> {
    var rows := SortedContacts(c, reader.canon);
    ContactsUpTo(rows, |rows|, reader.ids, reader.required)
  }

  ghost predicate PagesAccepted(kind: Kind, pages: Pages) {
    StoreAccepted(kind, pages.first, pages.second, pages.clean)
  }

  function RowsOf(pages: Pages): seq<Dict> {
    PageRows(pages.first) + PageRows(pages.second)
  }

  ghost predicate ReflashAccepted(c: ReflashCapture, reader: Reader) {
    && RestOk(c.rest)
    && ContactHeaderOk(c.contacts) && ContactsOf(c.contacts, reader).Some?
    && ReadStateOk(c.readState)
    && IdentityOk(c.identity, reader.ids.exactKey)
    && PagesAccepted(Public, c.publicPages)
    && PagesAccepted(Direct, c.directPages)
  }

  function StoreOf(kind: Kind, pages: Pages, canon: CanonText): Store
    requires HeaderOk(kind, pages.first)
  {
    Store(SortBy(RowsOf(pages), CanonLess(canon)), StateOf(kind, pages.first))
  }

  function Assembled(
    rest: Rest, key: string, c: ContactResult, contacts: Contacts, readState: ReadState, publicStore: Store,
    directStore: Store): Retained
    requires ContactHeaderOk(c)
  {
    Retained(
      rest.settings, rest.channels, key, rest.channelCapacity, rest.activeChannel, rest.channelRevision,
      rest.channelCursors, publicStore, directStore, contacts,
      ContactState(c.capacity, c.nextSeq.i, c.totalWritten.i, c.droppedOldest.i, c.failures.i), readState)
  }

  function RetainedOf(c: ReflashCapture, reader: Reader): Retained
    requires ReflashAccepted(c, reader)
  {
    Assembled(
      c.rest, reader.ids.exactKey(c.identity.publicKey).value, c.contacts, ContactsOf(c.contacts, reader).value,
      ReadStateOf(c.readState),
      StoreOf(Public, c.publicPages, reader.canon), StoreOf(Direct, c.directPages, reader.canon))
  }

  method ProjectPages(kind: Kind, pages: Pages, canon: CanonText) returns (r: Option<Store>)
    ensures r.Some? <==> PagesAccepted(kind, pages)
    ensures r.Some? ==> r.value == StoreOf(kind, pages, canon)
  {
    r := ProjectStore(kind, pages.first, pages.second, pages.clean, canon);
  }

  /** `retained_state_projection`: each part is checked in turn, and one refusal refuses the whole. */
  method RetainedStateProjection(c: ReflashCapture, reader: Reader) returns (r: Option<Retained>)
    ensures r.Some? <==> ReflashAccepted(c, reader)
    ensures r.Some? ==> r.value == RetainedOf(c, reader)
  {
    if !RestOk(c.rest) || !ContactHeaderOk(c.contacts) {
      return None;
    }
    var contacts := ContactRetentionProjection(SortedContacts(c.contacts, reader.canon), reader.ids, reader.required);
    if contacts.None? {
      return None;
    }
    var readState := ProjectReadState(c.readState);
    if readState.None? {
      return None;
    }
    var publicStore := ProjectPages(Public, c.publicPages, reader.canon);
    if publicStore.None? {
      return None;
    }
    var directStore := ProjectPages(Direct, c.directPages, reader.canon);
    if directStore.None? || !IdentityOk(c.identity, reader.ids.exactKey) {
      return None;
    }
    r := Some(Assembled(
      c.rest, reader.ids.exactKey(c.identity.publicKey).value, c.contacts, contacts.value, readState.value,
      publicStore.value, directStore.value));
  }

  /** No two different rows of a store have the same canonical text. */
  ghost predicate RowsApart(pages: Pages, canon: CanonText) {
    NoCollision(canon, Members(RowsOf(pages)), Members(RowsOf(pages)))
  }

  ghost predicate StoresApart(c: ReflashCapture, canon: CanonText) {
    RowsApart(c.publicPages, canon) && RowsApart(c.directPages, canon)
  }

  lemma ContactsWithinCapacity(c: ContactResult, reader: Reader)
    requires ContactHeaderOk(c) && ContactsOf(c, reader).Some?
    ensures |ContactsOf(c, reader).value| == |ContactRows(c)| <= CAPACITY
  {
    var rows := SortedContacts(c, reader.canon);
    MembersFromMultiset(ContactRows(c), rows);
    ContactsByFingerprint(rows, |rows|, reader.ids, reader.required);
  }

  /** What the projection returns is an accepted projection. */
  lemma ProjectionIsAccepted(c: ReflashCapture, reader: Reader)
    requires ReflashAccepted(c, reader)
    requires StoresApart(c, reader.canon)
    ensures AcceptedProjection(RetainedOf(c, reader), reader.canon)
  {
    ProjectedIsValid(Public, c.publicPages.first, c.publicPages.second, c.publicPages.clean, reader.canon);
    ProjectedIsValid(Direct, c.directPages.first, c.directPages.second, c.directPages.clean, reader.canon);
    ContactsWithinCapacity(c.contacts, reader);
  }

  // ----- the relation

  predicate ChannelsPreserved(a: Retained, b: Retained) {
    && PyEq(a.channelCapacity, b.channelCapacity) && a.activeChannel == b.activeChannel
    && a.channelRevision <= b.channelRevision
    && a.channelCursors.Keys == b.channelCursors.Keys
    && forall id | id in a.channelCursors ::
         && a.channelCursors[id].unread <= b.channelCursors[id].unread
         && a.channelCursors[id].newestMessageSeq <= b.channelCursors[id].newestMessageSeq
         && a.channelCursors[id].readThroughSeq <= b.channelCursors[id].readThroughSeq
  }

  function StoreCount(s: StoreState): int {
    if s.storeCount.Some? then s.storeCount.value else 0
  }

  /** Every counter is an integer and none goes back. */
  predicate PublicStatePreserved(a: StoreState, b: StoreState) {
    && a.capacity == b.capacity && a.epoch == b.epoch
    && a.retainedCount.Int? && b.retainedCount.Int? && a.retainedCount.i <= b.retainedCount.i
    && a.count <= b.count && StoreCount(a) <= StoreCount(b) && a.totalWritten <= b.totalWritten
    && a.droppedOldest <= b.droppedOldest && a.contentRevision <= b.contentRevision
  }

  function TextList(rows: seq<Dict>, canon: CanonText): seq<string> {
    seq(|rows|, i requires 0 <= i < |rows| => canon(rows[i]))
  }

  function Texts(rows: seq<Dict>, canon: CanonText): set<string> {
    Members(TextList(rows, canon))
  }

  predicate ReadStatePreserved(a: ReadState, b: ReadState) {
    && PyEq(a.cursorCapacity, b.cursorCapacity)
    && a.lastPublicReadSeq <= b.lastPublicReadSeq && a.lastDmReadSeq <= b.lastDmReadSeq
    && a.markReadCount <= b.markReadCount
    && forall f | f in a.dmCursors :: f in b.dmCursors && a.dmCursors[f] <= b.dmCursors[f]
  }

  predicate ContactPreserved(a: Contact, b: Contact) {
    && a.fingerprint == b.fingerprint && a.alias == b.alias && a.favorite == b.favorite && a.muted == b.muted
    && a.createdMs == b.createdMs
    && (a.publicKey != "" ==> b.publicKey == a.publicKey)
  }

  predicate ContactsPreserved(a: Contacts, b: Contacts) {
    forall f | f in a :: f in b && ContactPreserved(a[f], b[f])
  }

  predicate ContactStatePreserved(a: ContactState, b: ContactState) {
    && PyEq(a.capacity, b.capacity) && a.failures >= 0 && b.failures >= 0
    && a.nextSeq <= b.nextSeq && a.totalWritten <= b.totalWritten && a.droppedOldest <= b.droppedOldest
  }

  predicate RetainedStatePreserved(a: Retained, b: Retained, canon: CanonText) {
    && ItemEq(a.settings, b.settings) && ItemEq(a.channels, b.channels) && a.identityKey == b.identityKey
    && a.directMessages.state == b.directMessages.state
    && ChannelsPreserved(a, b)
    && PublicStatePreserved(a.publicMessages.state, b.publicMessages.state)
    && Texts(a.publicMessages.rows, canon) <= Texts(b.publicMessages.rows, canon)
    && Texts(a.directMessages.rows, canon) <= Texts(b.directMessages.rows, canon)
    && ReadStatePreserved(a.readState, b.readState)
    && ContactsPreserved(a.contacts, b.contacts)
    && ContactStatePreserved(a.contactState, b.contactState)
  }

  // ----- equal lists

  lemma SortedRowsDistinct(rows: seq<Dict>, canon: CanonText)
    requires StrictlySorted(rows, CanonLess(canon))
    ensures |Members(rows)| == |rows|
  {
    forall i, j | 0 <= i < j < |rows| ensures rows[i] != rows[j] {
      assert CanonLess(canon)(rows[i], rows[j]);
      TextLessTrichotomy(canon(rows[i]), canon(rows[j]));
    }
    DistinctMembersCount(rows);
  }

  /** Included texts are included rows, unless the texts of different rows collide. */
  lemma IncludedRows(a: seq<Dict>, b: seq<Dict>, canon: CanonText)
    requires NoCollision(canon, Members(a), Members(b))
    requires Texts(a, canon) <= Texts(b, canon)
    ensures Members(a) <= Members(b)
  {
    forall x | x in a ensures x in b {
      var i :| 0 <= i < |a| && a[i] == x;
      assert TextList(a, canon)[i] == canon(x);
      assert canon(x) in Texts(b, canon);
      var j :| 0 <= j < |b| && TextList(b, canon)[j] == canon(x);
      assert x in Members(a) && b[j] in Members(b);
    }
  }

  /** Sorted lists of one length, one included in the other, are the same list. */
  lemma IncludedIsEqual(a: seq<Dict>, b: seq<Dict>, canon: CanonText)
    requires NoCollision(canon, Members(a), Members(b))
    requires StrictlySorted(a, CanonLess(canon)) && StrictlySorted(b, CanonLess(canon))
    requires Texts(a, canon) <= Texts(b, canon) && |a| == |b|
    ensures a == b
  {
    IncludedRows(a, b, canon);
    SortedRowsDistinct(a, canon);
    SortedRowsDistinct(b, canon);
    SubsetOfEqualSize(Members(a), Members(b));
    forall x ensures x in a <==> x in b {
      assert x in Members(a) <==> x in Members(b);
    }
    CanonComparesByKey(canon);
    StrictlySortedUnique(a, b, CanonLess(canon));
  }

  // ----- what preservation pins

  /** A preserved reflash keeps the direct messages exactly. */
  lemma DirectMessagesKept(a: Retained, b: Retained, canon: CanonText)
    requires NoCollision(canon, Members(a.directMessages.rows), Members(b.directMessages.rows))
    requires AcceptedProjection(a, canon) && AcceptedProjection(b, canon)
    requires RetainedStatePreserved(a, b, canon)
    ensures a.directMessages == b.directMessages
  {
    IncludedIsEqual(a.directMessages.rows, b.directMessages.rows, canon);
  }

  /** The Public messages are kept exactly when no more are retained afterwards, as when all 16 rows
      were in use before. */
  lemma PublicMessagesKeptIff(a: Retained, b: Retained, canon: CanonText)
    requires NoCollision(canon, Members(a.publicMessages.rows), Members(b.publicMessages.rows))
    requires AcceptedProjection(a, canon) && AcceptedProjection(b, canon)
    requires RetainedStatePreserved(a, b, canon)
    ensures a.publicMessages.rows == b.publicMessages.rows
        <==> b.publicMessages.state.count <= a.publicMessages.state.count
    ensures a.publicMessages.state.count == CAPACITY ==> a.publicMessages.rows == b.publicMessages.rows
  {
    if |a.publicMessages.rows| == |b.publicMessages.rows| {
      IncludedIsEqual(a.publicMessages.rows, b.publicMessages.rows, canon);
    }
  }

  /** A full contact store keeps exactly its contacts: the same fingerprints, each with the same
      alias, flags and creation time. */
  lemma FullContactsKept(a: Retained, b: Retained, canon: CanonText)
    requires AcceptedProjection(a, canon) && AcceptedProjection(b, canon)
    requires RetainedStatePreserved(a, b, canon) && |a.contacts| == CAPACITY
    ensures a.contacts.Keys == b.contacts.Keys
    ensures forall f | f in b.contacts :: f in a.contacts && ContactPreserved(a.contacts[f], b.contacts[f])
  {
    assert a.contacts.Keys <= b.contacts.Keys;
    assert |a.contacts.Keys| == |a.contacts| && |b.contacts.Keys| == |b.contacts|;
    SubsetSize(a.contacts.Keys, b.contacts.Keys);
    SubsetOfEqualSize(a.contacts.Keys, b.contacts.Keys);
  }

  lemma SameRowsSorted(pages: Pages, canon: CanonText)
    ensures Members(SortBy(RowsOf(pages), CanonLess(canon))) == Members(RowsOf(pages))
  {
    MembersFromMultiset(RowsOf(pages), SortBy(RowsOf(pages), CanonLess(canon)));
  }

  /** From capture to capture: two projected captures, the later preserving the earlier, show the
      same direct-message rows, unless two different rows among theirs have the same text. */
  lemma CapturesShowSameDirectMessages(a: ReflashCapture, b: ReflashCapture, reader: Reader)
    requires ReflashAccepted(a, reader) && ReflashAccepted(b, reader)
    requires StoresApart(a, reader.canon) && StoresApart(b, reader.canon)
    requires NoCollision(reader.canon, Members(RowsOf(a.directPages)), Members(RowsOf(b.directPages)))
    requires RetainedStatePreserved(RetainedOf(a, reader), RetainedOf(b, reader), reader.canon)
    ensures Members(RowsOf(a.directPages)) == Members(RowsOf(b.directPages))
  {
    ProjectionIsAccepted(a, reader);
    ProjectionIsAccepted(b, reader);
    SameRowsSorted(a.directPages, reader.canon);
    SameRowsSorted(b.directPages, reader.canon);
    DirectMessagesKept(RetainedOf(a, reader), RetainedOf(b, reader), reader.canon);
  }

  // ----- a preorder

  /** A projection preserves itself exactly when its Public row count is recorded as an integer (the
      projection accepts an equal float or boolean). */
  lemma PreservesItselfIff(s: Retained, canon: CanonText)
    requires AcceptedProjection(s, canon)
    ensures RetainedStatePreserved(s, s, canon)
            <==> s.publicMessages.state.retainedCount.Int?
  {
  }

  /** A page of an empty store; `retained` is its retained count. */
  function EmptyPage(offset: int, retained: Value): StorePage {
    StorePage(
      Arr([]), Bool(false), Int(0), Int(CAPACITY), Int(0), retained,
      Int(offset), Int(PAGE_ROWS), Int(0), Bool(false), Int(offset), retained,
      Int(0), Int(0), Str("shared_all_channels"), Int(1), Int(1),
      Bool(false), Int(0), Bool(true), Null)
  }

  function EmptyPages(retained: Value): Pages {
    Pages(EmptyPage(0, retained), EmptyPage(PAGE_ROWS, retained), true)
  }

  /** A capture of a device with empty stores, whose Public count is written as a float. */
  function FloatCountCapture(key: string): ReflashCapture {
    ReflashCapture(
      Rest(true, Null, Null, Int(CHANNEL_CAPACITY), "", 1, map[]),
      ContactResult(Arr([]), Int(0), Int(CAPACITY), Int(1), Int(0), Int(0), Int(0), true),
      ReadStateResult([], Int(0), Int(0), Int(0), Int(0), Int(0), Int(CURSOR_CAPACITY), Arr([]), Arr([]), true),
      EmptyPages(Float(0.0)), EmptyPages(Int(0)),
      IdentityResult(Str(key), Bool(true), Str(Upper(KeyStart(key))), Str("desk_companion")))
  }

  /** On a device with a recognised key it is accepted, and its projection does not preserve itself. */
  lemma FloatCountNotPreserved(key: string, reader: Reader)
    requires reader.ids.exactKey(Str(key)) == Some(key)
    ensures var c := FloatCountCapture(key);
            && ReflashAccepted(c, reader)
            && !RetainedStatePreserved(RetainedOf(c, reader), RetainedOf(c, reader), reader.canon)
  {
    EmptyPagesAccepted(Public, Float(0.0));
    EmptyPagesAccepted(Direct, Int(0));
    assert ContactRows(FloatCountCapture(key).contacts) == [];
    assert SortBy([], CanonLess(reader.canon)) == [];
  }

  lemma EmptyPagesAccepted(kind: Kind, retained: Value)
    requires PyEq(retained, Int(0)) && (kind.Direct? ==> retained.Int?)
    ensures PagesAccepted(kind, EmptyPages(retained))
  {
    assert RowsOf(EmptyPages(retained)) == [];
  }

  lemma PreservedTransitive(a: Retained, b: Retained, c: Retained, canon: CanonText)
    requires RetainedStatePreserved(a, b, canon) && RetainedStatePreserved(b, c, canon)
    ensures RetainedStatePreserved(a, c, canon)
  {
    ContactsTransitive(a.contacts, b.contacts, c.contacts);
  }

  lemma ContactsTransitive(a: Contacts, b: Contacts, c: Contacts)
    requires ContactsPreserved(a, b) && ContactsPreserved(b, c)
    ensures ContactsPreserved(a, c)
  {
    forall f | f in a ensures f in c && ContactPreserved(a[f], c[f]) {
      assert f in b && ContactPreserved(a[f], b[f]) && ContactPreserved(b[f], c[f]);
    }
  }

  // ----- a series of reflashes

  ghost predicate Series(states: seq<Retained>, canon: CanonText) {
    && (forall i | 0 <= i < |states| :: AcceptedProjection(states[i], canon))
    && forall i | 0 <= i < |states| - 1 :: RetainedStatePreserved(states[i], states[i + 1], canon)
  }

  lemma {:induction false} ChainHolds<T(!new)>(s: seq<T>, rel: (T, T) -> bool, i: nat, j: nat)
    requires forall x, y, z | rel(x, y) && rel(y, z) :: rel(x, z)
    requires forall k | 0 <= k < |s| - 1 :: rel(s[k], s[k + 1])
    requires i < j < |s|
    ensures rel(s[i], s[j])
    decreases j
  {
    var k := j - 1;
    assert rel(s[k], s[k + 1]);
    if i < k { ChainHolds(s, rel, i, k); }
  }

  lemma SeriesPreserves(states: seq<Retained>, canon: CanonText, i: nat, j: nat)
    requires Series(states, canon) && i < j < |states|
    ensures RetainedStatePreserved(states[i], states[j], canon)
  {
    var rel := (x: Retained, y: Retained) => RetainedStatePreserved(x, y, canon);
    forall x, y, z | rel(x, y) && rel(y, z) ensures rel(x, z) { PreservedTransitive(x, y, z, canon); }
    ChainHolds(states, rel, i, j);
  }

  /** Over any series of preserved reflashes the direct messages never change, no contact is lost,
      and a key, once known, is the key ever after. */
  lemma SeriesKeeps(states: seq<Retained>, canon: CanonText, i: nat, j: nat, f: string)
    requires Series(states, canon) && i <= j < |states|
    requires NoCollision(canon, Members(states[i].directMessages.rows), Members(states[j].directMessages.rows))
    ensures states[j].directMessages == states[i].directMessages
    ensures f in states[i].contacts ==> f in states[j].contacts
    ensures f in states[i].contacts && states[i].contacts[f].publicKey != ""
            ==> states[j].contacts[f].publicKey == states[i].contacts[f].publicKey
  {
    if i < j {
      SeriesPreserves(states, canon, i, j);
      DirectMessagesKept(states[i], states[j], canon);
      assert f in states[i].contacts ==> ContactPreserved(states[i].contacts[f], states[j].contacts[f]);
    }
  }

  // ----- the closing gate

  /** `retained_reflash_baseline_ready` */
  predicate BaselineReady(s: Retained) {
    && |s.directMessages.rows| > 0
    && s.directMessages.state.retainedCount.Int?
    && s.directMessages.state.retainedCount.i > 0
    && s.directMessages.state.retainedCount.i == |s.directMessages.rows|
    && s.directMessages.state.totalWritten >= s.directMessages.state.retainedCount.i
    && s.directMessages.state.epoch >= 1
  }

  /** A closing reflash checks both ends; the second check follows from the first, and the rows that
      witness retention are the same ones. */
  lemma ReadyAfterReflash(a: Retained, b: Retained, canon: CanonText)
    requires NoCollision(canon, Members(a.directMessages.rows), Members(b.directMessages.rows))
    requires AcceptedProjection(a, canon) && AcceptedProjection(b, canon)
    requires RetainedStatePreserved(a, b, canon)
    ensures BaselineReady(a) <==> BaselineReady(b)
    ensures BaselineReady(a) ==> a.directMessages.rows[0] in b.directMessages.rows
  {
    DirectMessagesKept(a, b, canon);
  }
}
