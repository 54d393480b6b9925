/** The release verdict drawn from a defect snapshot (scripts/capture_core_github_defects_d1l.py). */
module ReleaseVerdict {
  import opened Common
  import opened Json
  import opened Sorting

  /** The four classification labels, in the order they are looked up. */
  datatype Class = CoreBlocker | FullFeatureDeferred | EvidenceOnly | Stale

  /** A validated row. `labels` are its label names, stripped and case-folded. */
  datatype Issue = Issue(number: int, isOpen: bool, isPull: bool, labels: set<string>, commentCount: nat)

  /** A validated comment row; `issue` is the number read from its `issue_url`. */
  datatype Comment = Comment(issue: Option<int>, association: string, body: string)

  const MIXED_CORE_DEFERRED_ISSUES: set<int> := {8, 63, 67, 68, 69, 74, 76}
  const PENDING_TAG_ISSUE: int := 71

  // ----- captured rows

  /** How text in rows is read: trimming, case folding, and the issue number in an `issue_url`. */
  datatype Reading = Reading(
    strip: string -> string, fold: string -> string, issueOfUrl: string -> Option<int>, repositoryUrl: string)

  predicate NamedLabel(tag: Value, read: Reading) {
    tag.Obj? && Get(tag.fields, "name").Str? && read.strip(Get(tag.fields, "name").s) != ""
  }

  function Items(v: Value): seq<Value> {
    if v.Arr? then v.items else []
  }

  predicate Positive(v: Value) {
    v.Int? && v.i > 0
  }

  /** An issue row by itself. */
  predicate IssueRowOk(row: Dict, read: Reading) {
    && Positive(Get(row, "number"))
    && (Get(row, "state") == Str("open") || Get(row, "state") == Str("closed"))
    && Get(row, "repository_url") == Str(read.repositoryUrl)
    && Get(row, "title").Str? && (Get(row, "body").Str? || Get(row, "body").Null?)
    && Get(row, "labels").Arr? && (forall tag | tag in Items(Get(row, "labels")) :: NamedLabel(tag, read))
    && Get(row, "comments").Int? && Get(row, "comments").i >= 0
  }

  function IssueOf(row: Dict, read: Reading): Issue {
    Issue(
      if Get(row, "number").Int? then Get(row, "number").i else 0,
      Get(row, "state") == Str("open"), Get(row, "pull_request").Obj?,
      set tag | tag in Items(Get(row, "labels")) && NamedLabel(tag, read) ::
        read.fold(read.strip(Get(tag.fields, "name").s)),
      if Get(row, "comments").Int? && Get(row, "comments").i >= 0 then Get(row, "comments").i else 0)
  }

  function IssuesIn(rows: seq<Dict>, read: Reading): seq<Issue> {
    seq(|rows|, k requires 0 <= k < |rows| => IssueOf(rows[k], read))
  }

  predicate IssueRowsOk(rows: seq<Dict>, read: Reading) {
    forall k | 0 <= k < |rows| :: IssueRowOk(rows[k], read)
  }

  /** No author, or one with a name. */
  predicate AuthorOk(user: Value, read: Reading) {
    user.Null? || (user.Obj? && Get(user.fields, "login").Str? && read.strip(Get(user.fields, "login").s) != "")
  }

  /** A comment row by itself; whether its issue is known is checked beside it. */
  predicate CommentRowOk(row: Dict, read: Reading) {
    && Get(row, "body").Str? && Get(row, "created_at").Str? && Get(row, "updated_at").Str?
    && Get(row, "author_association").Str?
    && AuthorOk(Get(row, "user"), read)
  }

  function TextOf(v: Value): string {
    if v.Str? then v.s else ""
  }

  function CommentOf(row: Dict, read: Reading): Comment {
    Comment(
      if Get(row, "issue_url").Str? then read.issueOfUrl(Get(row, "issue_url").s) else None,
      TextOf(Get(row, "author_association")), TextOf(Get(row, "body")))
  }

  function CommentsIn(rows: seq<Dict>, read: Reading): seq<Comment> {
    seq(|rows|, k requires 0 <= k < |rows| => CommentOf(rows[k], read))
  }

  predicate CommentRowsOk(rows: seq<Dict>, read: Reading) {
    forall k | 0 <= k < |rows| :: CommentRowOk(rows[k], read)
  }

  // ----- comments by issue

  function CommentsOf(comments: seq<Comment>, number: int): seq<Comment> {
    if comments == [] then []
    else
      var last := comments[|comments| - 1];
      CommentsOf(comments[..|comments| - 1], number) + if last.issue == Some(number) then [last] else []
  }

  function NumbersOf(issues: seq<Issue>): set<int> {
    set i | 0 <= i < |issues| :: issues[i].number
  }

  ghost predicate DistinctNumbers(issues: seq<Issue>) {
    forall i, j | 0 <= i < j < |issues| :: issues[i].number != issues[j].number
  }

  ghost predicate NumbersValid(issues: seq<Issue>) {
    DistinctNumbers(issues) && forall i | 0 <= i < |issues| :: issues[i].number > 0
  }

  lemma OneMoreNumber(issues: seq<Issue>, issue: Issue)
    ensures NumbersValid(issues + [issue])
            <==> NumbersValid(issues) && issue.number > 0 && issue.number !in NumbersOf(issues)
    ensures NumbersOf(issues + [issue]) == NumbersOf(issues) + {issue.number}
  {
    var all, n := issues + [issue], |issues|;
    assert all[n] == issue && forall i | 0 <= i < n :: all[i] == issues[i];
    assert forall i | 0 <= i < n :: issues[i].number in NumbersOf(issues);
    forall x ensures x in NumbersOf(all) <==> x in NumbersOf(issues) + {issue.number} {
      if x in NumbersOf(issues) {
        var i :| 0 <= i < n && issues[i].number == x;
        assert all[i].number == x;
      }
    }
    if NumbersValid(all) {
      assert forall i | 0 <= i < n :: all[i].number != all[n].number && all[i].number > 0;
    }
  }

  /** One more row: either it passes, or no list that starts like this does. */
  lemma NextRow(rows: seq<Dict>, read: Reading, k: nat)
    requires k < |rows| && NumbersValid(IssuesIn(rows, read)[..k])
    ensures var all := IssuesIn(rows, read);
            if IssueRowOk(rows[k], read) && all[k].number !in NumbersOf(all[..k]) then
              && NumbersValid(all[..k + 1])
              && NumbersOf(all[..k + 1]) == NumbersOf(all[..k]) + {all[k].number}
            else
              !(IssueRowsOk(rows, read) && NumbersValid(all))
  {
    var all := IssuesIn(rows, read);
    OneMoreNumber(all[..k], all[k]);
    assert all[..k + 1] == all[..k] + [all[k]];
    PrefixValid(all, k + 1);
  }

  /** Every row is well formed, its number positive and not met before. */
  method ValidateIssueRows(rows: seq<Dict>, read: Reading) returns (r: Option<seq<Issue>>)
    ensures r.Some? <==> IssueRowsOk(rows, read) && NumbersValid(IssuesIn(rows, read))
    ensures r.Some? ==> r.value == IssuesIn(rows, read)
  {
    ghost var all := IssuesIn(rows, read);
    var issues: seq<Issue>, numbers: set<int> := [], {};
    for k := 0 to |rows|
      invariant (forall i | 0 <= i < k :: IssueRowOk(rows[i], read)) && issues == all[..k]
      invariant NumbersValid(all[..k]) && numbers == NumbersOf(all[..k])
    {
      NextRow(rows, read, k);
      var issue := IssueOf(rows[k], read);
      if !IssueRowOk(rows[k], read) || issue.number in numbers {
        return None;
      }
      issues, numbers := issues + [issue], numbers + {issue.number};
    }
    assert all[..|rows|] == all;
    r := Some(issues);
  }

  lemma PrefixValid(issues: seq<Issue>, k: nat)
    requires k <= |issues|
    ensures NumbersValid(issues) ==> NumbersValid(issues[..k])
  {
  }

  predicate CommentKnown(comment: Comment, issues: seq<Issue>) {
    comment.issue.Some? && comment.issue.value in NumbersOf(issues)
  }

  function Listed(byIssue: map<int, seq<Comment>>, number: int): seq<Comment> {
    if number in byIssue then byIssue[number] else []
  }

  ghost predicate Grouped(byIssue: map<int, seq<Comment>>, comments: seq<Comment>) {
    forall number :: Listed(byIssue, number) == CommentsOf(comments, number)
  }

  ghost predicate AllKnown(comments: seq<Comment>, issues: seq<Issue>) {
    forall k | 0 <= k < |comments| :: CommentKnown(comments[k], issues)
  }

  ghost predicate CountsMatch(comments: seq<Comment>, issues: seq<Issue>) {
    forall i | 0 <= i < |issues| :: issues[i].commentCount == |CommentsOf(comments, issues[i].number)|
  }

  lemma GroupOne(byIssue: map<int, seq<Comment>>, before: seq<Comment>, comment: Comment)
    requires Grouped(byIssue, before) && comment.issue.Some?
    ensures Grouped(
              byIssue[comment.issue.value := Listed(byIssue, comment.issue.value) + [comment]], before + [comment])
  {
    var after := byIssue[comment.issue.value := Listed(byIssue, comment.issue.value) + [comment]];
    assert (before + [comment])[..|before|] == before;
    forall number ensures Listed(after, number) == CommentsOf(before + [comment], number) {
      assert Listed(byIssue, number) == CommentsOf(before, number);
    }
  }

  /** One comment row against the captured issues. */
  predicate Fits(row: Dict, issues: seq<Issue>, read: Reading) {
    CommentRowOk(row, read) && CommentKnown(CommentOf(row, read), issues)
  }

  lemma AllFit(rows: seq<Dict>, issues: seq<Issue>, read: Reading)
    ensures (forall k | 0 <= k < |rows| :: Fits(rows[k], issues, read))
       <==> CommentRowsOk(rows, read) && AllKnown(CommentsIn(rows, read), issues)
  {
    var comments := CommentsIn(rows, read);
    forall k | 0 <= k < |rows|
      ensures Fits(rows[k], issues, read) <==> CommentRowOk(rows[k], read) && CommentKnown(comments[k], issues)
    {
    }
  }

  method GroupRows(rows: seq<Dict>, issues: seq<Issue>, read: Reading) returns (r: Option<map<int, seq<Comment>>>)
    ensures r.Some? <==> forall k | 0 <= k < |rows| :: Fits(rows[k], issues, read)
    ensures r.Some? ==> Grouped(r.value, CommentsIn(rows, read))
  {
    ghost var comments := CommentsIn(rows, read);
    var byIssue: map<int, seq<Comment>> := map[];
    for k := 0 to |rows|
      invariant forall i | 0 <= i < k :: Fits(rows[i], issues, read)
      invariant Grouped(byIssue, comments[..k])
    {
      if !Fits(rows[k], issues, read) {
        return None;
      }
      var comment := CommentOf(rows[k], read);
      assert comments[..k + 1] == comments[..k] + [comment];
      GroupOne(byIssue, comments[..k], comment);
      byIssue := byIssue[comment.issue.value := Listed(byIssue, comment.issue.value) + [comment]];
    }
    assert comments[..|comments|] == comments;
    r := Some(byIssue);
  }

  /** Grouping succeeds exactly when every comment row is well formed and belongs to a captured issue,
      and every issue has as many comments as its row says; the groups keep capture order. */
  method GroupComments(rows: seq<Dict>, issues: seq<Issue>, read: Reading) returns (r: Option<map<int, seq<Comment>>>)
    ensures r.Some? <==>
            && CommentRowsOk(rows, read) && AllKnown(CommentsIn(rows, read), issues)
            && CountsMatch(CommentsIn(rows, read), issues)
    ensures r.Some? ==> Grouped(r.value, CommentsIn(rows, read))
  {
    AllFit(rows, issues, read);
    r := GroupRows(rows, issues, read);
    if r.Some? {
      var reconciled := Reconcile(r.value, CommentsIn(rows, read), issues);
      r := if reconciled then r else None;
    }
  }

  method Reconcile(byIssue: map<int, seq<Comment>>, ghost comments: seq<Comment>, issues: seq<Issue>) returns (ok: bool)
    requires Grouped(byIssue, comments)
    ensures ok <==> CountsMatch(comments, issues)
  {
    var mismatched := set i | 0 <= i < |issues| && issues[i].commentCount != |Listed(byIssue, issues[i].number)|;
    ok := mismatched == {};
    if ok {
      forall i | 0 <= i < |issues| ensures issues[i].commentCount == |CommentsOf(comments, issues[i].number)| {
        assert i !in mismatched;
      }
    } else {
      var i :| i in mismatched;
      assert issues[i].commentCount != |CommentsOf(comments, issues[i].number)|;
    }
  }

  // ----- the deferral comment

  predicate Privileged(association: string) {
    association == "OWNER" || association == "MEMBER" || association == "COLLABORATOR"
  }

  /** The latest privileged comment that names the marker, the commit, the run and its attempt;
      `mentions` reads these in a body. */
  method MixedDeferralComment(comments: seq<Comment>, mentions: string -> bool) returns (r: Option<Comment>)
    ensures r.Some? <==> HasDeferralComment(comments, mentions)
    ensures r.Some? ==> exists k | 0 <= k < |comments| ::
        r.value == comments[k] && LatestDeferral(comments, mentions, k)
  {
    var k := |comments|;
    while k > 0
      invariant 0 <= k <= |comments|
      invariant forall j | k <= j < |comments| :: !(Privileged(comments[j].association) && mentions(comments[j].body))
    {
      k := k - 1;
      if Privileged(comments[k].association) && mentions(comments[k].body) {
        assert LatestDeferral(comments, mentions, k);
        return Some(comments[k]);
      }
    }
    r := None;
  }

  /** Comment `k` is a deferral comment, and none after it is. */
  predicate LatestDeferral(comments: seq<Comment>, mentions: string -> bool, k: nat)
    requires k < |comments|
  {
    && Privileged(comments[k].association) && mentions(comments[k].body)
    && forall j | k < j < |comments| :: !(Privileged(comments[j].association) && mentions(comments[j].body))
  }

  predicate HasDeferralComment(comments: seq<Comment>, mentions: string -> bool) {
    exists j | 0 <= j < |comments| :: Privileged(comments[j].association) && mentions(comments[j].body)
  }

  /** The issues with a deferral comment. */
  function Marked(byIssue: map<int, seq<Comment>>, mentions: string -> bool): int -> bool {
    (number: int) => HasDeferralComment(Listed(byIssue, number), mentions)
  }

  // ----- one issue

  function Label(c: Class): string {
    match c
    case CoreBlocker => "core-blocker"
    case FullFeatureDeferred => "full-feature-deferred"
    case EvidenceOnly => "evidence-only"
    case Stale => "stale/close after reconciliation"
  }

  function IfLabelled(labels: set<string>, c: Class): seq<Class> {
    if Label(c) in labels then [c] else []
  }

  function Matched(issue: Issue): seq<Class> {
    IfLabelled(issue.labels, CoreBlocker) + IfLabelled(issue.labels, FullFeatureDeferred)
    + IfLabelled(issue.labels, EvidenceOnly) + IfLabelled(issue.labels, Stale)
  }

  /** The single classification, if there is exactly one. */
  function Classification(matched: seq<Class>): Option<Class> {
    if |matched| == 1 then Some(matched[0]) else None
  }

  predicate OpenP0(issue: Issue) {
    !issue.isPull && issue.isOpen && "p0" in issue.labels
  }

  predicate OpenP1(issue: Issue) {
    !issue.isPull && issue.isOpen && "p1" in issue.labels
  }

  predicate Mixed(issue: Issue) {
    issue.number in MIXED_CORE_DEFERRED_ISSUES && OpenP0(issue)
  }

  /** Classified full-feature-deferred and nothing else, with a deferral comment where one is due. */
  predicate Deferred(issue: Issue, matched: seq<Class>, marked: int -> bool) {
    matched == [FullFeatureDeferred] && (Mixed(issue) ==> marked(issue.number))
  }

  predicate CriticalP1(issue: Issue, matched: seq<Class>) {
    OpenP1(issue) && |matched| == 1 && matched[0] != FullFeatureDeferred
  }

  /** What makes a classification erroneous: no label, several labels, a missing deferral comment. */
  predicate Misclassified(issue: Issue, matched: seq<Class>, marked: int -> bool) {
    (OpenP0(issue) || OpenP1(issue))
    && (|matched| != 1 || (matched == [FullFeatureDeferred] && Mixed(issue) && !marked(issue.number)))
  }

  datatype Reason = MissingClassification | MultipleClassifications | DeferralCommentMissing

  datatype Status = NotReady | TransitionRequired | Applied | InvalidMissingComment

  datatype Judgement = Judgement(
    number: int, isOpen: bool, isP0: bool, classification: Option<Class>,
    errors: seq<Reason>, transition: Option<Status>, blocking: bool, deferred: bool, critical: bool)

  method JudgeIssue(issue: Issue, comments: seq<Comment>, mentions: string -> bool, ghost marked: int -> bool)
    returns (j: Judgement)
    requires !issue.isPull
    requires marked(issue.number) == HasDeferralComment(comments, mentions)
    ensures j.number == issue.number && j.isOpen == issue.isOpen && j.isP0 == ("p0" in issue.labels)
    ensures j.classification == Classification(Matched(issue))
    ensures j.blocking <==> OpenP0(issue) && !Deferred(issue, Matched(issue), marked)
    ensures j.deferred <==> OpenP0(issue) && Deferred(issue, Matched(issue), marked)
    ensures j.critical <==> CriticalP1(issue, Matched(issue))
    ensures j.errors != [] <==> Misclassified(issue, Matched(issue), marked)
    ensures j.transition.Some? <==> Mixed(issue)
    ensures j.transition == Some(Applied) <==> Mixed(issue) && Deferred(issue, Matched(issue), marked)
  {
    var isP0, isP1 := "p0" in issue.labels, "p1" in issue.labels;
    var matched := Matched(issue);
    var classification := Classification(matched);
    var errors: seq<Reason> := [];
    if issue.isOpen && (isP0 || isP1) {
      if matched == [] {
        errors := errors + [MissingClassification];
      } else if |matched| > 1 {
        errors := errors + [MultipleClassifications];
      }
    }
    var transition: Option<Status> := None;
    if issue.number in MIXED_CORE_DEFERRED_ISSUES && issue.isOpen && isP0 {
      var status := NotReady;
      if classification == Some(EvidenceOnly) {
        status := TransitionRequired;
      } else if classification == Some(FullFeatureDeferred) {
        var evidence := MixedDeferralComment(comments, mentions);
        if evidence.Some? {
          status := Applied;
        } else {
          status := InvalidMissingComment;
          errors := errors + [DeferralCommentMissing];
        }
      }
      transition := Some(status);
    }
    var blocking, deferred := false, false;
    if issue.isOpen && isP0 {
      blocking :=
        || classification == Some(CoreBlocker) || classification == Some(EvidenceOnly) || classification == Some(Stale)
        || classification == None
        || errors != [];
      deferred := !blocking;
    }
    var critical := issue.isOpen && isP1 && |matched| == 1
      && (classification == Some(CoreBlocker) || classification == Some(EvidenceOnly) || classification == Some(Stale));
    j := Judgement(issue.number, issue.isOpen, isP0, classification, errors, transition, blocking, deferred, critical);
  }

  // ----- all issues

  predicate NumberLess(a: Issue, b: Issue) {
    a.number < b.number
  }

  /** Numbers of the issues that satisfy `f`, in order. */
  function Select(issues: seq<Issue>, f: Issue -> bool): seq<int> {
    if issues == [] then []
    else
      var last := issues[|issues| - 1];
      Select(issues[..|issues| - 1], f) + if f(last) then [last.number] else []
  }

  function Blocks(marked: int -> bool): Issue -> bool {
    (issue: Issue) => OpenP0(issue) && !Deferred(issue, Matched(issue), marked)
  }

  function Defers(marked: int -> bool): Issue -> bool {
    (issue: Issue) => OpenP0(issue) && Deferred(issue, Matched(issue), marked)
  }

  function IsCritical(): Issue -> bool {
    (issue: Issue) => CriticalP1(issue, Matched(issue))
  }

  function Errs(marked: int -> bool): Issue -> bool {
    (issue: Issue) => !issue.isPull && Misclassified(issue, Matched(issue), marked)
  }

  datatype Analysis = Analysis(
    judgements: seq<Judgement>, blockingP0: seq<int>, deferredP0: seq<int>, criticalP1: seq<int>,
    errors: seq<(int, Reason)>)

  predicate JudgedLike(j: Judgement, issue: Issue) {
    && j.number == issue.number && j.isOpen == issue.isOpen && j.isP0 == ("p0" in issue.labels)
    && j.classification == Classification(Matched(issue)) && !issue.isPull
  }

  function WithNumber(number: int, reasons: seq<Reason>): seq<(int, Reason)> {
    seq(|reasons|, i requires 0 <= i < |reasons| => (number, reasons[i]))
  }

  function NotPulls(issues: seq<Issue>): seq<Issue> {
    if issues == [] then []
    else
      var last := issues[|issues| - 1];
      NotPulls(issues[..|issues| - 1]) + if last.isPull then [] else [last]
  }

  ghost predicate JudgedAll(judgements: seq<Judgement>, issues: seq<Issue>) {
    |judgements| == |issues| && forall i | 0 <= i < |issues| :: JudgedLike(judgements[i], issues[i])
  }

  /** What the lists of an analysis hold. */
  ghost predicate Analyzed(a: Analysis, issues: seq<Issue>, marked: int -> bool) {
    && a.blockingP0 == Select(issues, Blocks(marked))
    && a.deferredP0 == Select(issues, Defers(marked))
    && a.criticalP1 == Select(issues, IsCritical())
    && (a.errors == [] <==> Select(issues, Errs(marked)) == [])
    && JudgedAll(a.judgements, NotPulls(issues))
  }

  function IfSelected(issue: Issue, f: Issue -> bool): seq<int> {
    if f(issue) then [issue.number] else []
  }

  lemma SelectOne(before: seq<Issue>, issue: Issue, f: Issue -> bool)
    ensures Select(before + [issue], f) == Select(before, f) + IfSelected(issue, f)
  {
    assert (before + [issue])[..|before|] == before;
  }

  lemma AnalyzeOne(before: seq<Issue>, issue: Issue, marked: int -> bool)
    ensures Select(before + [issue], Blocks(marked))
        == Select(before, Blocks(marked)) + IfSelected(issue, Blocks(marked))
    ensures Select(before + [issue], Defers(marked))
        == Select(before, Defers(marked)) + IfSelected(issue, Defers(marked))
    ensures Select(before + [issue], IsCritical()) == Select(before, IsCritical()) + IfSelected(issue, IsCritical())
    ensures Select(before + [issue], Errs(marked)) == Select(before, Errs(marked)) + IfSelected(issue, Errs(marked))
    ensures NotPulls(before + [issue]) == NotPulls(before) + if issue.isPull then [] else [issue]
  {
    SelectOne(before, issue, Blocks(marked));
    SelectOne(before, issue, Defers(marked));
    SelectOne(before, issue, IsCritical());
    SelectOne(before, issue, Errs(marked));
    assert (before + [issue])[..|before|] == before;
  }

  /** The body of the loop. */
  method AnalyzeNext(
    a: Analysis, issue: Issue, byIssue: map<int, seq<Comment>>, mentions: string -> bool, ghost before: seq<Issue>)
    returns (b: Analysis)
    requires Analyzed(a, before, Marked(byIssue, mentions))
    ensures Analyzed(b, before + [issue], Marked(byIssue, mentions))
  {
    ghost var marked := Marked(byIssue, mentions);
    AnalyzeOne(before, issue, marked);
    if issue.isPull {
      return a;
    }
    var j := JudgeIssue(issue, Listed(byIssue, issue.number), mentions, marked);
    assert NotPulls(before + [issue]) == NotPulls(before) + [issue];
    b := Analysis(
      a.judgements + [j],
      a.blockingP0 + (if j.blocking then [j.number] else []),
      a.deferredP0 + (if j.deferred then [j.number] else []),
      a.criticalP1 + (if j.critical then [j.number] else []),
      a.errors + WithNumber(j.number, j.errors));
  }

  method AnalyzeIssues(issues: seq<Issue>, byIssue: map<int, seq<Comment>>, mentions: string -> bool)
    returns (a: Analysis)
    ensures Analyzed(a, SortBy(issues, NumberLess), Marked(byIssue, mentions))
  {
    var sorted: seq<Issue> := SortBy(issues, NumberLess);
    a := Analysis([], [], [], [], []);
    for k := 0 to |sorted|
      invariant Analyzed(a, sorted[..k], Marked(byIssue, mentions))
    {
      a := AnalyzeNext(a, sorted[k], byIssue, mentions, sorted[..k]);
      assert sorted[..k] + [sorted[k]] == sorted[..k + 1];
    }
    assert sorted[..|sorted|] == sorted;
  }

  // ----- the lists

  lemma {:induction false} SelectMember(issues: seq<Issue>, f: Issue -> bool, n: int)
    ensures n in Select(issues, f) <==> exists issue: Issue | issue in issues :: f(issue) && issue.number == n
  {
    if issues != [] {
      var init, last := issues[..|issues| - 1], issues[|issues| - 1];
      SelectMember(init, f, n);
      assert forall issue: Issue :: issue in issues <==> issue in init || issue == last;
    }
  }

  lemma {:induction false} SelectEmpty(issues: seq<Issue>, f: Issue -> bool)
    ensures Select(issues, f) == [] <==> forall issue: Issue | issue in issues :: !f(issue)
  {
    if issues != [] {
      var init, last := issues[..|issues| - 1], issues[|issues| - 1];
      SelectEmpty(init, f);
      assert forall issue: Issue :: issue in issues <==> issue in init || issue == last;
    }
  }

  function IsOpenP0(): Issue -> bool {
    (issue: Issue) => OpenP0(issue)
  }

  /** The open P0 issues that are no pull requests split into the blocking and the deferred list:
      none is lost, doubled or in both. */
  lemma {:induction false} OpenP0Split(issues: seq<Issue>, marked: int -> bool)
    ensures multiset(Select(issues, IsOpenP0()))
         == multiset(Select(issues, Blocks(marked))) + multiset(Select(issues, Defers(marked)))
  {
    if issues != [] {
      OpenP0Split(issues[..|issues| - 1], marked);
    }
  }

  lemma {:induction false} SelectDistinct(issues: seq<Issue>, f: Issue -> bool)
    requires DistinctNumbers(issues)
    ensures forall i, j | 0 <= i < j < |Select(issues, f)| :: Select(issues, f)[i] != Select(issues, f)[j]
  {
    if issues != [] {
      var init, last := issues[..|issues| - 1], issues[|issues| - 1];
      SelectDistinct(init, f);
      SelectMember(init, f, last.number);
    }
  }

  ghost predicate OnlyNumber(issues: seq<Issue>, f: Issue -> bool, n: int) {
    forall issue: Issue | issue in issues && f(issue) :: issue.number == n
  }

  lemma SelectedAre(issues: seq<Issue>, f: Issue -> bool, n: int)
    requires OnlyNumber(issues, f, n)
    ensures forall k | 0 <= k < |Select(issues, f)| :: Select(issues, f)[k] == n
  {
    var list := Select(issues, f);
    forall k | 0 <= k < |list| ensures list[k] == n { SelectMember(issues, f, list[k]); }
  }

  lemma OneSelected(issues: seq<Issue>, f: Issue -> bool, n: int)
    requires Select(issues, f) == [n]
    ensures OnlyNumber(issues, f, n)
  {
    forall issue: Issue | issue in issues && f(issue) ensures issue.number == n {
      SelectMember(issues, f, issue.number);
    }
  }

  /** A list selects exactly one number. */
  lemma SelectOnly(issues: seq<Issue>, f: Issue -> bool, n: int)
    requires DistinctNumbers(issues)
    ensures Select(issues, f) == [n] <==>
            (exists issue: Issue | issue in issues :: f(issue) && issue.number == n) && OnlyNumber(issues, f, n)
  {
    var list := Select(issues, f);
    SelectDistinct(issues, f);
    assert |list| > 1 ==> list[0] != list[1];
    SelectMember(issues, f, n);
    if list == [n] { OneSelected(issues, f, n); }
    if OnlyNumber(issues, f, n) { SelectedAre(issues, f, n); }
  }

  // ----- the verdict

  datatype Phase = PreTag | PostTag

  /** The identity the umbrella issue must have. */
  predicate UmbrellaJudged(j: Judgement) {
    j.isOpen && j.classification == Some(CoreBlocker) && j.isP0
  }

  /** `next(...)`: the first judgement with a number. */
  method FindJudgement(judgements: seq<Judgement>, number: int) returns (r: Option<Judgement>)
    ensures r.None? <==> forall i | 0 <= i < |judgements| :: judgements[i].number != number
    ensures r.Some? ==> r.value in judgements && r.value.number == number
  {
    for i := 0 to |judgements|
      invariant forall k | 0 <= k < i :: judgements[k].number != number
    {
      if judgements[i].number == number {
        return Some(judgements[i]);
      }
    }
    r := None;
  }

  /** Issue 71 stands alone: the only blocking P0, identified, with every audit gate passed and no
      other finding. `audit` is the verdict on the non-tag audit, when there is one. */
  method PendingTagException(a: Analysis, phase: Phase, audit: Option<bool>) returns (applied: bool)
    requires forall i, j | 0 <= i < |a.judgements| && 0 <= j < |a.judgements| ::
               a.judgements[i].number == a.judgements[j].number ==> i == j
    ensures applied <==>
            && phase.PreTag? && audit == Some(true) && a.errors == [] && a.criticalP1 == []
            && a.blockingP0 == [PENDING_TAG_ISSUE]
            && exists j: Judgement | j in a.judgements :: j.number == PENDING_TAG_ISSUE && UmbrellaJudged(j)
  {
    if phase != PreTag || audit != Some(true) || a.errors != [] || a.criticalP1 != []
      || a.blockingP0 != [PENDING_TAG_ISSUE]
    {
      return false;
    }
    var umbrella := FindJudgement(a.judgements, PENDING_TAG_ISSUE);
    applied := umbrella.Some? && UmbrellaJudged(umbrella.value);
  }

  function Without(numbers: seq<int>, n: int): seq<int> {
    if numbers == [] then [] else if numbers[0] == n then numbers[1..] else [numbers[0]] + Without(numbers[1..], n)
  }

  /** `capture_ok`. */
  method CaptureOk(a: Analysis, phase: Phase, audit: Option<bool>) returns (ok: bool, applied: bool)
    requires forall i, j | 0 <= i < |a.judgements| && 0 <= j < |a.judgements| ::
               a.judgements[i].number == a.judgements[j].number ==> i == j
    ensures ok <==> a.errors == [] && a.criticalP1 == [] && (a.blockingP0 == [] || applied)
    ensures applied <==>
            && phase.PreTag? && audit == Some(true) && a.errors == [] && a.criticalP1 == []
            && a.blockingP0 == [PENDING_TAG_ISSUE]
            && exists j: Judgement | j in a.judgements :: j.number == PENDING_TAG_ISSUE && UmbrellaJudged(j)
  {
    applied := PendingTagException(a, phase, audit);
    var remaining := if applied then Without(a.blockingP0, PENDING_TAG_ISSUE) else a.blockingP0;
    ok := a.errors == [] && |remaining| == 0 && |a.criticalP1| == 0;
  }

  // ----- what the verdict means

  /** Open, P0 or P1, and no pull request. */
  predicate Relevant(issue: Issue) {
    OpenP0(issue) || OpenP1(issue)
  }

  ghost predicate AllDeferred(issues: seq<Issue>, marked: int -> bool) {
    forall issue: Issue | issue in issues && Relevant(issue) :: Deferred(issue, Matched(issue), marked)
  }

  /** The umbrella issue as the exception wants it: an open P0 whose one classification is
      core-blocker, and not also P1. */
  predicate Umbrella(issue: Issue) {
    issue.number == PENDING_TAG_ISSUE && OpenP0(issue) && !OpenP1(issue) && Matched(issue) == [CoreBlocker]
  }

  ghost predicate OnlyUmbrellaBlocks(issues: seq<Issue>, marked: int -> bool) {
    && (exists issue: Issue | issue in issues :: Umbrella(issue))
    && forall issue: Issue | issue in issues && Relevant(issue) ::
         Umbrella(issue) || Deferred(issue, Matched(issue), marked)
  }

  predicate NothingFound(issues: seq<Issue>, marked: int -> bool) {
    && Select(issues, Errs(marked)) == [] && Select(issues, Blocks(marked)) == []
    && Select(issues, IsCritical()) == []
  }

  /** No finding at all: every relevant issue is deferred. */
  lemma CleanIff(issues: seq<Issue>, marked: int -> bool)
    ensures NothingFound(issues, marked) <==> AllDeferred(issues, marked)
  {
    SelectEmpty(issues, Errs(marked));
    SelectEmpty(issues, Blocks(marked));
    SelectEmpty(issues, IsCritical());
    if AllDeferred(issues, marked) {
      forall issue: Issue | issue in issues
        ensures !Errs(marked)(issue) && !Blocks(marked)(issue) && !IsCritical()(issue)
      {
      }
    }
    if NothingFound(issues, marked) {
      forall issue: Issue | issue in issues && Relevant(issue) ensures Deferred(issue, Matched(issue), marked) {
        assert !Errs(marked)(issue) && !Blocks(marked)(issue) && !IsCritical()(issue);
      }
    }
  }

  lemma SameNumberSameIssue(issues: seq<Issue>, x: Issue, y: Issue)
    requires DistinctNumbers(issues) && x in issues && y in issues && x.number == y.number
    ensures x == y
  {
    var i :| 0 <= i < |issues| && issues[i] == x;
    var j :| 0 <= j < |issues| && issues[j] == y;
  }

  /** What the exception looks at, in terms of the issues. */
  ghost predicate UmbrellaFound(issues: seq<Issue>) {
    exists issue: Issue | issue in issues ::
      && issue.number == PENDING_TAG_ISSUE && !issue.isPull && issue.isOpen && "p0" in issue.labels
      && Classification(Matched(issue)) == Some(CoreBlocker)
  }

  lemma UmbrellaGives(issues: seq<Issue>, marked: int -> bool)
    requires DistinctNumbers(issues) && UmbrellaFound(issues)
    requires Select(issues, Errs(marked)) == [] && Select(issues, IsCritical()) == []
    requires Select(issues, Blocks(marked)) == [PENDING_TAG_ISSUE]
    ensures OnlyUmbrellaBlocks(issues, marked)
  {
    SelectEmpty(issues, Errs(marked));
    SelectEmpty(issues, IsCritical());
    SelectOnly(issues, Blocks(marked), PENDING_TAG_ISSUE);
    var umbrella: Issue :| umbrella in issues && umbrella.number == PENDING_TAG_ISSUE && !umbrella.isPull
      && umbrella.isOpen && "p0" in umbrella.labels && Classification(Matched(umbrella)) == Some(CoreBlocker);
    assert Matched(umbrella) == [CoreBlocker];
    assert !IsCritical()(umbrella);
    assert Umbrella(umbrella);
    forall issue: Issue | issue in issues && Relevant(issue)
      ensures Umbrella(issue) || Deferred(issue, Matched(issue), marked)
    {
      assert !Errs(marked)(issue) && !IsCritical()(issue);
      if Blocks(marked)(issue) { SameNumberSameIssue(issues, issue, umbrella); }
    }
  }

  lemma UmbrellaFrom(issues: seq<Issue>, marked: int -> bool)
    requires DistinctNumbers(issues) && OnlyUmbrellaBlocks(issues, marked)
    ensures UmbrellaFound(issues)
    ensures Select(issues, Errs(marked)) == [] && Select(issues, IsCritical()) == []
    ensures Select(issues, Blocks(marked)) == [PENDING_TAG_ISSUE]
  {
    SelectEmpty(issues, Errs(marked));
    SelectEmpty(issues, IsCritical());
    SelectOnly(issues, Blocks(marked), PENDING_TAG_ISSUE);
    var umbrella: Issue :| umbrella in issues && Umbrella(umbrella);
    assert Blocks(marked)(umbrella);
    forall issue: Issue | issue in issues
      ensures !Errs(marked)(issue) && !IsCritical()(issue)
      ensures Blocks(marked)(issue) ==> issue.number == PENDING_TAG_ISSUE
    {
      assert Relevant(issue) ==> Umbrella(issue) || Deferred(issue, Matched(issue), marked);
    }
  }

  lemma {:induction false} NotPullsMember(issues: seq<Issue>, issue: Issue)
    ensures issue in NotPulls(issues) <==> issue in issues && !issue.isPull
  {
    if issues != [] {
      NotPullsMember(issues[..|issues| - 1], issue);
      var last := issues[|issues| - 1];
      assert issue in issues <==> issue in issues[..|issues| - 1] || issue == last;
    }
  }

  lemma {:induction false} NotPullsDistinct(issues: seq<Issue>)
    requires DistinctNumbers(issues)
    ensures DistinctNumbers(NotPulls(issues))
  {
    if issues != [] {
      var init, last := issues[..|issues| - 1], issues[|issues| - 1];
      NotPullsDistinct(init);
      forall i | 0 <= i < |NotPulls(init)| ensures NotPulls(init)[i].number != last.number {
        NotPullsMember(init, NotPulls(init)[i]);
      }
    }
  }

  lemma SortedDistinct(issues: seq<Issue>)
    requires DistinctNumbers(issues)
    ensures DistinctNumbers(SortBy(issues, NumberLess))
  {
    assert NoTies(issues, NumberLess);
    NoTiesPermuted(issues, SortBy(issues, NumberLess), NumberLess);
  }

  lemma JudgedUmbrella(judgements: seq<Judgement>, issues: seq<Issue>)
    requires JudgedAll(judgements, NotPulls(issues))
    ensures (exists j: Judgement | j in judgements :: j.number == PENDING_TAG_ISSUE && UmbrellaJudged(j))
        <==> UmbrellaFound(issues)
  {
    var list := NotPulls(issues);
    if exists j: Judgement | j in judgements :: j.number == PENDING_TAG_ISSUE && UmbrellaJudged(j) {
      var i :| 0 <= i < |judgements| && judgements[i].number == PENDING_TAG_ISSUE && UmbrellaJudged(judgements[i]);
      NotPullsMember(issues, list[i]);
      assert JudgedLike(judgements[i], list[i]);
    }
    if UmbrellaFound(issues) {
      var issue: Issue :| issue in issues && issue.number == PENDING_TAG_ISSUE && !issue.isPull && issue.isOpen
        && "p0" in issue.labels && Classification(Matched(issue)) == Some(CoreBlocker);
      NotPullsMember(issues, issue);
      var i :| 0 <= i < |list| && list[i] == issue;
      assert JudgedLike(judgements[i], list[i]);
      assert judgements[i] in judgements;
    }
  }

  /** The snapshot is ok exactly when every open P0 or P1 issue carries the single label
      full-feature-deferred (with a deferral comment where one is due), or the pre-tag exception
      applies; and that applies exactly when issue 71 is the only one that does not. */
  method Verdict(
    issues: seq<Issue>, byIssue: map<int, seq<Comment>>, mentions: string -> bool, phase: Phase, audit: Option<bool>)
    returns (ok: bool, applied: bool)
    requires DistinctNumbers(issues)
    ensures ok <==> AllDeferred(issues, Marked(byIssue, mentions)) || applied
    ensures applied <==> phase.PreTag? && audit == Some(true) && OnlyUmbrellaBlocks(issues, Marked(byIssue, mentions))
  {
    ghost var sorted := SortBy(issues, NumberLess);
    ghost var marked := Marked(byIssue, mentions);
    SortedDistinct(issues);
    MembersFromMultiset(issues, sorted);
    var a := AnalyzeIssues(issues, byIssue, mentions);
    AnalysisMeans(a, sorted, marked);
    SameMembersSameVerdict(issues, sorted, marked);
    ok, applied := CaptureOk(a, phase, audit);
  }

  /** What the lists of an analysis say about the issues. */
  lemma AnalysisMeans(a: Analysis, issues: seq<Issue>, marked: int -> bool)
    requires Analyzed(a, issues, marked) && DistinctNumbers(issues)
    ensures forall i, j | 0 <= i < |a.judgements| && 0 <= j < |a.judgements| ::
              a.judgements[i].number == a.judgements[j].number ==> i == j
    ensures a.errors == [] && a.criticalP1 == [] && a.blockingP0 == [] <==> AllDeferred(issues, marked)
    ensures a.errors == [] && a.criticalP1 == [] && a.blockingP0 == [PENDING_TAG_ISSUE]
            && (exists j: Judgement | j in a.judgements :: j.number == PENDING_TAG_ISSUE && UmbrellaJudged(j))
            <==> OnlyUmbrellaBlocks(issues, marked)
  {
    NotPullsDistinct(issues);
    forall i, j | 0 <= i < |a.judgements| && 0 <= j < |a.judgements| && a.judgements[i].number == a.judgements[j].number
      ensures i == j
    {
      assert JudgedLike(a.judgements[i], NotPulls(issues)[i]) && JudgedLike(a.judgements[j], NotPulls(issues)[j]);
    }
    CleanIff(issues, marked);
    JudgedUmbrella(a.judgements, issues);
    UmbrellaIff(issues, marked);
  }

  lemma UmbrellaIff(issues: seq<Issue>, marked: int -> bool)
    requires DistinctNumbers(issues)
    ensures Select(issues, Errs(marked)) == [] && Select(issues, IsCritical()) == []
            && Select(issues, Blocks(marked)) == [PENDING_TAG_ISSUE] && UmbrellaFound(issues)
            <==> OnlyUmbrellaBlocks(issues, marked)
  {
    if Select(issues, Errs(marked)) == [] && Select(issues, IsCritical()) == []
      && Select(issues, Blocks(marked)) == [PENDING_TAG_ISSUE] && UmbrellaFound(issues)
    {
      UmbrellaGives(issues, marked);
    }
    if OnlyUmbrellaBlocks(issues, marked) {
      UmbrellaFrom(issues, marked);
    }
  }

  lemma SameMembersSameVerdict(a: seq<Issue>, b: seq<Issue>, marked: int -> bool)
    requires forall x :: x in a <==> x in b
    ensures AllDeferred(a, marked) <==> AllDeferred(b, marked)
    ensures OnlyUmbrellaBlocks(a, marked) <==> OnlyUmbrellaBlocks(b, marked)
  {
  }

  /** From the captured rows: refused exactly when a row is malformed, a number is repeated, or the
      comments do not reconcile with the issues. */
  method SnapshotVerdict(
    issueRows: seq<Dict>, commentRows: seq<Dict>, read: Reading, mentions: string -> bool, phase: Phase,
    audit: Option<bool>)
    returns (r: Option<(bool, bool)>)
    ensures var issues, comments := IssuesIn(issueRows, read), CommentsIn(commentRows, read);
            r.Some? <==>
            && IssueRowsOk(issueRows, read) && NumbersValid(issues)
            && CommentRowsOk(commentRows, read) && AllKnown(comments, issues) && CountsMatch(comments, issues)
    ensures r.Some? ==>
              var issues, comments := IssuesIn(issueRows, read), CommentsIn(commentRows, read);
              var marked := (number: int) => HasDeferralComment(CommentsOf(comments, number), mentions);
              && (r.value.0 <==> AllDeferred(issues, marked) || r.value.1)
              && (r.value.1 <==> phase.PreTag? && audit == Some(true) && OnlyUmbrellaBlocks(issues, marked))
  {
    var valid := ValidateIssueRows(issueRows, read);
    if valid.None? {
      return None;
    }
    var issues := valid.value;
    var grouped := GroupComments(commentRows, issues, read);
    if grouped.None? {
      return None;
    }
    var ok, applied := Verdict(issues, grouped.value, mentions, phase, audit);
    r := Some((ok, applied));
    ghost var comments := CommentsIn(commentRows, read);
    ghost var marked := (number: int) => HasDeferralComment(CommentsOf(comments, number), mentions);
    forall number ensures marked(number) == Marked(grouped.value, mentions)(number) {
      assert Listed(grouped.value, number) == CommentsOf(comments, number);
    }
    SameMarks(issues, marked, Marked(grouped.value, mentions));
  }

  lemma SameMarks(issues: seq<Issue>, x: int -> bool, y: int -> bool)
    requires forall number :: x(number) == y(number)
    ensures AllDeferred(issues, x) <==> AllDeferred(issues, y)
    ensures OnlyUmbrellaBlocks(issues, x) <==> OnlyUmbrellaBlocks(issues, y)
  {
    forall issue: Issue ensures Deferred(issue, Matched(issue), x) <==> Deferred(issue, Matched(issue), y) {
      assert x(issue.number) == y(issue.number);
    }
  }
}
