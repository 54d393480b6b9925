/** The defect snapshot: issues, then comments, then issues again, while others edit the tracker
    (scripts/capture_core_github_defects_d1l.py). Equal issue collects mean that nothing changed
    between them. */
module DoubleCollect {
  import opened Common
  import opened Json
  import opened TrackerPages

  // ----- a tracker that changes

  datatype Tracker = Tracker(issues: Rows, comments: Rows)

  /** The tracker at successive instants. */
  type History = seq<Tracker>

  /** Equality of two decoded rows. */
  predicate SameRow(a: Dict, b: Dict) {
    ItemEq(Obj(a), Obj(b))
  }

  predicate SameRows(a: Rows, b: Rows) {
    |a| == |b| && forall i | 0 <= i < |a| :: SameRow(a[i], b[i])
  }

  /** The row was not seen at position `i` up to instant `k`. */
  ghost predicate FreshRow(h: History, k: nat, i: nat, row: Dict)
    requires k < |h|
  {
    forall j | 0 <= j <= k && i < |h[j].issues| :: !SameRow(h[j].issues[i], row)
  }

  ghost predicate IssueChanged(h: History, k: nat, i: nat)
    requires k + 1 < |h|
  {
    i < |h[k + 1].issues| && (i >= |h[k].issues| || h[k + 1].issues[i] != h[k].issues[i])
  }

  /** One edit: issues keep their place in creation order and new ones come last; a row that changes
      becomes one never seen before; a comment is only edited together with the row of an issue. */
  ghost predicate Step(h: History, k: nat)
    requires k + 1 < |h|
  {
    && |h[k].issues| <= |h[k + 1].issues|
    && (forall i | 0 <= i < |h[k].issues| && IssueChanged(h, k, i) :: FreshRow(h, k, i, h[k + 1].issues[i]))
    && (h[k + 1].comments != h[k].comments ==> exists i: nat :: IssueChanged(h, k, i))
  }

  ghost predicate Run(h: History) {
    forall k | 0 <= k < |h| - 1 :: Step(h, k)
  }

  lemma {:induction false} NeverShrinks(h: History, s: nat, t: nat)
    requires Run(h) && s <= t < |h|
    ensures |h[s].issues| <= |h[t].issues|
    decreases t
  {
    if s < t {
      NeverShrinks(h, s, t - 1);
      assert Step(h, t - 1);
    }
  }

  lemma SeenIsUnchanged(h: History, i: nat, s: nat, k: nat)
    requires s <= k && k + 1 < |h| && Step(h, k)
    requires i < |h[s].issues| && |h[s].issues| <= |h[k].issues|
    requires SameRow(h[s].issues[i], h[k + 1].issues[i])
    ensures h[k + 1].issues[i] == h[k].issues[i]
  {
    assert IssueChanged(h, k, i) ==> FreshRow(h, k, i, h[k + 1].issues[i]);
  }

  /** A row that reads the same at two instants did not change in between. */
  lemma {:induction false} NoReturn(h: History, i: nat, s: nat, u: nat, t: nat)
    requires Run(h) && s <= u <= t < |h|
    requires i < |h[s].issues|
    requires |h[s].issues| <= |h[u].issues| && |h[s].issues| <= |h[t].issues|
    requires SameRow(h[s].issues[i], h[t].issues[i])
    ensures h[u].issues[i] == h[s].issues[i]
    decreases t
  {
    if s < t {
      NeverShrinks(h, s, t - 1);
      var k := t - 1;
      assert Step(h, k);
      SeenIsUnchanged(h, i, s, k);
      if u == t {
        NoReturn(h, i, s, k, k);
      } else {
        NoReturn(h, i, s, u, k);
      }
    }
  }

  // ----- one collect of the issues

  /** The instant at which each page is read. */
  type Reads = nat -> nat

  /** Pages 1 to n are read in order. */
  ghost predicate InOrder(h: History, at: Reads, n: nat) {
    && (forall p | 1 <= p <= n :: at(p) < |h|)
    && (forall p, q | 1 <= p <= q <= n :: at(p) <= at(q))
  }

  function Shown(h: History, at: Reads, p: nat): Rows
    requires p >= 1
  {
    if at(p) < |h| then PageOf(h[at(p)].issues, p) else []
  }

  function Collected(h: History, at: Reads, n: nat): Rows {
    if n == 0 then [] else Collected(h, at, n - 1) + Shown(h, at, n)
  }

  /** The capture stops at the first empty page. */
  ghost predicate StopsAt(h: History, at: Reads, n: nat) {
    n >= 1 && Shown(h, at, n) == [] && forall p | 1 <= p < n :: Shown(h, at, p) != []
  }

  /** At least the issues present when the first page was read are collected, unless pages are left. */
  lemma {:induction false} CollectsAtLeast(h: History, at: Reads, n: nat)
    requires Run(h) && n >= 1 && InOrder(h, at, n)
    ensures |Collected(h, at, n)| >= (if |h[at(1)].issues| < PAGE_SIZE * n then |h[at(1)].issues| else PAGE_SIZE * n)
    ensures |Collected(h, at, n)| <= PAGE_SIZE * n
  {
    NeverShrinks(h, at(1), at(n));
    if n > 1 {
      CollectsAtLeast(h, at, n - 1);
    } else {
      assert Collected(h, at, 0) == [];
    }
  }

  /** Every collected row is the one at its own position when some page was read. */
  ghost predicate InPlace(h: History, at: Reads, n: nat, rows: Rows) {
    forall i | 0 <= i < |rows| :: RowSeen(h, at, n, i, rows[i])
  }

  ghost predicate RowSeen(h: History, at: Reads, n: nat, i: nat, row: Dict) {
    exists p | 1 <= p <= n :: at(p) < |h| && i < |h[at(p)].issues| && row == h[at(p)].issues[i]
  }

  /** A collect up to a page that is not empty: either no position was missed, or issues filed
      while it ran were collected after a gap. */
  ghost predicate NoGap(h: History, at: Reads, n: nat, rows: Rows)
    requires n >= 1 && InOrder(h, at, n)
  {
    var now := h[at(n)].issues;
    InPlace(h, at, n, rows) && |rows| == if |now| < PAGE_SIZE * n then |now| else PAGE_SIZE * n
  }

  ghost predicate Gap(h: History, at: Reads, n: nat, rows: Rows)
    requires n >= 1 && InOrder(h, at, n)
  {
    |h[at(1)].issues| < |rows| < |h[at(n)].issues| && |rows| < PAGE_SIZE * n
  }

  lemma PageInPlace(h: History, at: Reads, n: nat, before: Rows, page: Rows)
    requires n >= 1 && at(n) < |h|
    requires InPlace(h, at, n - 1, before) && |before| == PAGE_SIZE * (n - 1)
    requires page == PageOf(h[at(n)].issues, n)
    ensures InPlace(h, at, n, before + page)
  {
    var rows := before + page;
    forall i | 0 <= i < |rows| ensures RowSeen(h, at, n, i, rows[i]) {
      if i < |before| {
        assert RowSeen(h, at, n - 1, i, before[i]);
        assert rows[i] == before[i];
      } else {
        assert rows[i] == page[i - |before|];
        assert rows[i] == h[at(n)].issues[i];
      }
    }
  }

  lemma FullPagesLength(list: Rows, n: nat, before: Rows, page: Rows)
    requires n >= 1 && |before| == PAGE_SIZE * (n - 1) && page == PageOf(list, n) && page != []
    ensures |before + page| == if |list| < PAGE_SIZE * n then |list| else PAGE_SIZE * n
  {
  }

  /** A short page followed by one that is not empty leaves a gap. */
  lemma AfterShortPage(h: History, at: Reads, n: nat, before: Rows, page: Rows)
    requires n > 1 && InOrder(h, at, n)
    requires |before| < PAGE_SIZE * (n - 1) && |h[at(1)].issues| <= |before|
    requires page == PageOf(h[at(n)].issues, n) && page != []
    ensures Gap(h, at, n, before + page)
  {
  }

  lemma {:induction false} NoGapOrGap(h: History, at: Reads, n: nat)
    requires Run(h) && n >= 1 && InOrder(h, at, n)
    requires forall p | 1 <= p <= n :: Shown(h, at, p) != []
    ensures NoGap(h, at, n, Collected(h, at, n)) || Gap(h, at, n, Collected(h, at, n))
  {
    var before, page := Collected(h, at, n - 1), Shown(h, at, n);
    if n == 1 {
      PageInPlace(h, at, 1, before, page);
      FullPagesLength(h[at(1)].issues, 1, before, page);
    } else {
      NoGapOrGap(h, at, n - 1);
      NeverShrinks(h, at(1), at(n - 1));
      if |before| < PAGE_SIZE * (n - 1) {
        AfterShortPage(h, at, n, before, page);
      } else {
        PageInPlace(h, at, n, before, page);
        FullPagesLength(h[at(n)].issues, n, before, page);
      }
    }
  }

  /** What a finished collect holds: no fewer issues than existed at its first read, no more than at
      its last; and if it holds only as many as existed at one of the two, no gap. */
  lemma FinishedCollect(h: History, at: Reads, n: nat)
    requires Run(h) && InOrder(h, at, n) && StopsAt(h, at, n)
    ensures |h[at(1)].issues| <= |Collected(h, at, n)| <= |h[at(n)].issues|
    ensures |Collected(h, at, n)| == |h[at(1)].issues| || |Collected(h, at, n)| == |h[at(n)].issues|
            ==> InPlace(h, at, n, Collected(h, at, n))
  {
    var rows := Collected(h, at, n);
    assert rows == Collected(h, at, n - 1);
    if n > 1 {
      NoGapOrGap(h, at, n - 1);
      NeverShrinks(h, at(1), at(n - 1));
      NeverShrinks(h, at(n - 1), at(n));
      if NoGap(h, at, n - 1, rows) {
        forall i | 0 <= i < |rows| ensures RowSeen(h, at, n, i, rows[i]) {
          assert RowSeen(h, at, n - 1, i, rows[i]);
        }
      }
    }
  }

  // ----- two equal collects

  /** The second collect begins no earlier than the first ends. */
  ghost predicate TwoCollects(h: History, first: Reads, m: nat, second: Reads, n: nat) {
    && InOrder(h, first, m) && StopsAt(h, first, m)
    && InOrder(h, second, n) && StopsAt(h, second, n)
    && first(m) <= second(1)
  }

  /** Equal collects have the length of the issue list at every instant between them. */
  lemma LengthBetween(h: History, first: Reads, m: nat, second: Reads, n: nat, u: nat)
    requires Run(h) && TwoCollects(h, first, m, second, n)
    requires |Collected(h, first, m)| == |Collected(h, second, n)|
    requires first(m) <= u <= second(1)
    ensures |h[u].issues| == |Collected(h, first, m)|
    ensures InPlace(h, first, m, Collected(h, first, m)) && InPlace(h, second, n, Collected(h, second, n))
  {
    FinishedCollect(h, first, m);
    FinishedCollect(h, second, n);
    NeverShrinks(h, first(m), u);
    NeverShrinks(h, u, second(1));
  }

  /** Equal collects hold the issue list as it was at every instant between them. */
  lemma IssuesBetween(h: History, first: Reads, m: nat, second: Reads, n: nat, u: nat)
    requires Run(h) && TwoCollects(h, first, m, second, n)
    requires SameRows(Collected(h, first, m), Collected(h, second, n))
    requires first(m) <= u <= second(1)
    ensures h[u].issues == Collected(h, first, m)
  {
    var a, b := Collected(h, first, m), Collected(h, second, n);
    LengthBetween(h, first, m, second, n, u);
    forall i | 0 <= i < |a| ensures h[u].issues[i] == a[i] {
      assert RowSeen(h, first, m, i, a[i]) && RowSeen(h, second, n, i, b[i]);
      var p :| 1 <= p <= m && i < |h[first(p)].issues| && a[i] == h[first(p)].issues[i];
      var q :| 1 <= q <= n && i < |h[second(q)].issues| && b[i] == h[second(q)].issues[i];
      NeverShrinks(h, first(p), u);
      NeverShrinks(h, first(p), second(q));
      NoReturn(h, i, first(p), u, second(q));
    }
  }

  lemma CommentsKept(h: History, k: nat)
    requires k + 1 < |h| && Step(h, k) && h[k + 1].issues == h[k].issues
    ensures h[k + 1].comments == h[k].comments
  {
    assert forall i: nat :: !IssueChanged(h, k, i);
  }

  /** ... so no comment was edited between them either. */
  lemma {:induction false} CommentsBetween(h: History, first: Reads, m: nat, second: Reads, n: nat, u: nat)
    requires Run(h) && TwoCollects(h, first, m, second, n)
    requires SameRows(Collected(h, first, m), Collected(h, second, n))
    requires first(m) <= u <= second(1)
    ensures h[u].comments == h[first(m)].comments
    decreases u
  {
    if u > first(m) {
      CommentsBetween(h, first, m, second, n, u - 1);
      IssuesBetween(h, first, m, second, n, u - 1);
      IssuesBetween(h, first, m, second, n, u);
      CommentsKept(h, u - 1);
    }
  }

  // ----- the capture

  const ISSUE_ENDPOINT := "repos/n30nex/SIGUI/issues?state=all&sort=created&direction=asc"
  const COMMENT_ENDPOINT := "repos/n30nex/SIGUI/issues/comments?sort=created&direction=asc"

  /** The three collects, in the order `capture` makes them. */
  method CaptureTracker(issues: Source, comments: Source, verification: Source, limit: nat)
    returns (r: Result<(seq<Page>, seq<Page>, seq<Page>)>)
    ensures r.Ok? <==>
            && Capturable(issues, limit) && Capturable(comments, limit) && Capturable(verification, limit)
            && forall m, n | CompleteAt(issues, m) && CompleteAt(verification, n) ::
                 SameRows(Gathered(issues, m), Gathered(verification, n))
    ensures r.Ok? ==> CompleteAt(issues, |r.value.0|) && Flatten(r.value.0) == Gathered(issues, |r.value.0|)
    ensures r.Ok? ==> CompleteAt(comments, |r.value.1|) && Flatten(r.value.1) == Gathered(comments, |r.value.1|)
    ensures r.Ok? ==> CompleteAt(verification, |r.value.2|)
    ensures r.Ok? ==> SameRows(Flatten(r.value.0), Gathered(verification, |r.value.2|))
  {
    var issuePages := CapturePages(issues, ISSUE_ENDPOINT, limit);
    if issuePages.Err? {
      return Err(issuePages.error);
    }
    var commentPages := CapturePages(comments, COMMENT_ENDPOINT, limit);
    if commentPages.Err? {
      return Err(commentPages.error);
    }
    var verificationPages := CapturePages(verification, ISSUE_ENDPOINT, limit);
    if verificationPages.Err? {
      return Err(verificationPages.error);
    }
    forall m, n | CompleteAt(issues, m) && CompleteAt(verification, n)
      ensures m == |issuePages.value| && n == |verificationPages.value|
    {
      CompleteOnce(issues, m, |issuePages.value|);
      CompleteOnce(verification, n, |verificationPages.value|);
    }
    if !SameRows(Flatten(issuePages.value), Flatten(verificationPages.value)) {
      return Err(IssuesChanged);
    }
    r := Ok((issuePages.value, commentPages.value, verificationPages.value));
  }

  /** The API shows the tracker as it is when a page is read. */
  ghost predicate ShowsIssues(source: Source, h: History, at: Reads, n: nat) {
    InOrder(h, at, n) && forall p | 1 <= p <= n :: Answer(source, p) == Some(Shown(h, at, p))
  }

  ghost predicate ShowsComments(source: Source, h: History, at: Reads, n: nat) {
    InOrder(h, at, n) && forall p | 1 <= p <= n :: Answer(source, p) == Some(PageOf(h[at(p)].comments, p))
  }

  lemma GatherOne(source: Source, before: Rows, n: nat, page: Rows)
    requires n > 0 && Answer(source, n) == Some(page) && Gathered(source, n - 1) == before
    ensures Gathered(source, n) == before + page
  {
  }

  ghost predicate ShownUpTo(source: Source, h: History, at: Reads, n: nat) {
    n == 0 || (ShownUpTo(source, h, at, n - 1) && Answer(source, n) == Some(Shown(h, at, n)))
  }

  lemma {:induction false} EachShown(source: Source, h: History, at: Reads, n: nat)
    requires forall p | 1 <= p <= n :: Answer(source, p) == Some(Shown(h, at, p))
    ensures ShownUpTo(source, h, at, n)
  {
    if n > 0 { EachShown(source, h, at, n - 1); }
  }

  lemma {:induction false} GatheredIsCollected(source: Source, h: History, at: Reads, n: nat)
    requires ShownUpTo(source, h, at, n)
    ensures Gathered(source, n) == Collected(h, at, n)
  {
    if n > 0 {
      GatheredIsCollected(source, h, at, n - 1);
      GatherOne(source, Collected(h, at, n - 1), n, Shown(h, at, n));
    }
  }

  /** Pages of one unchanging list that complete a capture hold the whole list. */
  lemma CompletesWhole(source: Source, list: Rows, n: nat)
    requires ServesUpTo(source, list, n) && CompleteAt(source, n)
    ensures Gathered(source, n) == list
  {
    GatheredPrefix(source, list, n);
    assert PageOf(list, n) == [];
  }

  lemma CompleteStops(source: Source, h: History, at: Reads, n: nat)
    requires ShowsIssues(source, h, at, n) && CompleteAt(source, n)
    ensures StopsAt(h, at, n)
  {
  }

  /** A capture that passes holds issues and comments of one instant: at every instant between the
      end of the first issue collect and the start of the second, the tracker had exactly these
      issues and exactly these comments. */
  lemma SnapshotIsOneState(
    h: History, issues: Source, comments: Source, verification: Source,
    first: Reads, during: Reads, second: Reads, m: nat, k: nat, n: nat, u: nat)
    requires Run(h)
    requires ShowsIssues(issues, h, first, m) && CompleteAt(issues, m)
    requires ShowsComments(comments, h, during, k) && CompleteAt(comments, k)
    requires ShowsIssues(verification, h, second, n) && CompleteAt(verification, n)
    requires first(m) <= during(1) && during(k) <= second(1)
    requires SameRows(Gathered(issues, m), Gathered(verification, n))
    requires first(m) <= u <= second(1)
    ensures h[u].issues == Gathered(issues, m)
    ensures h[u].comments == Gathered(comments, k)
  {
    EachShown(issues, h, first, m);
    EachShown(verification, h, second, n);
    GatheredIsCollected(issues, h, first, m);
    GatheredIsCollected(verification, h, second, n);
    CompleteStops(issues, h, first, m);
    CompleteStops(verification, h, second, n);
    IssuesBetween(h, first, m, second, n, u);
    CommentsBetween(h, first, m, second, n, u);
    var list := h[first(m)].comments;
    forall p | 1 <= p <= k ensures Answer(comments, p) == Some(PageOf(list, p)) {
      CommentsBetween(h, first, m, second, n, during(p));
    }
    CompletesWhole(comments, list, k);
  }
}
