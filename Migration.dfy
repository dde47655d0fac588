/** The GitHub side of TransferIssues.go with every octokit, FTP and file
    call replaced by what it is given or what it is asked to do: the
    attachment-url rewrite and comment posting of postBug, the close
    decision of closeIssues, the tab clean-up of fixFormatting, the paging
    of getGithubIssues, and the link fixLinksv2 writes. */
module Migration {
  import opened Wrappers
  import opened Text
  import Attachments
  import Comments
  import Bugs
  import Matching

  // ---------------------------------------------------------------------
  // postBug
  // ---------------------------------------------------------------------

  /** Where attachments are moved to: a host and the directory under it. */
  datatype Site = Site(host: string, dir: string)

  /** The site postBug and fixLinksv2 use. */
  const Apsim := Site("www.apsim.info", "BugAttachments/")

  /** The directory and file part of a moved attachment's location. */
  function AttachmentPath(dir: string, id: int, file: string): string
  {
    "/" + dir + IntToDecimal(id) + "/" + file
  }

  /** The new location of a comment's attachment: the host with any slashes
      trimmed, the directory named after the comment's id, and the clean
      file name. */
  function HostedUrl(site: Site, c: Comments.Comment): (url: string)
    ensures var host := site.host;
      host == [] || (host[0] != '/' && host[|host| - 1] != '/') ==>
        url == host + AttachmentPath(site.dir, c.id, Attachments.GetCleanFileName(c.attachment))
  {
    var host := site.host;
    var trimmed := Trim(host, '/');
    assert host == [] || (host[0] != '/' && host[|host| - 1] != '/') ==> trimmed == host by {
      if host == [] || (host[0] != '/' && host[|host| - 1] != '/') {
        TrimNoop(host, '/');
      }
    }
    trimmed + AttachmentPath(site.dir, c.id, Attachments.GetCleanFileName(c.attachment))
  }

  /** What the loop of postBug leaves at position `i`. */
  function Rehosted(site: Site, i: nat, c: Comments.Comment): Comments.Comment
  {
    if i > 0 && c.attachment != Attachments.NoAttachment then
      c.(attachment := c.attachment.(url := HostedUrl(site, c)))
    else c
  }

  /** A comment after the first that has an attachment gets the attachment's
      new url; no other field and no other comment changes. */
  lemma RehostedChanges(site: Site, i: nat, c: Comments.Comment)
    ensures var r := Rehosted(site, i, c);
      && r.id == c.id && r.author == c.author && r.date == c.date && r.text == c.text
      && r.attachment.name == c.attachment.name && r.attachment.size == c.attachment.size
      && (i > 0 && Attachments.IsPresent(c.attachment) ==> r.attachment.url == HostedUrl(site, c))
      && (!(i > 0 && Attachments.IsPresent(c.attachment)) ==> r == c)
  {
  }

  /** The rewrite keeps an attachment an attachment, so the posted comment
      shows the link to the new location and not the comment's text. */
  lemma RehostedPostsLink(site: Site, i: nat, c: Comments.Comment)
    requires i > 0 && Attachments.IsPresent(c.attachment)
    ensures Attachments.IsPresent(Rehosted(site, i, c).attachment)
    ensures Comments.ToString(Rehosted(site, i, c))
         == Comments.Header(c) + Attachments.ToString(c.attachment.(url := HostedUrl(site, c)))
  {
    var path := AttachmentPath(site.dir, c.id, Attachments.GetCleanFileName(c.attachment));
    assert |path| > 0;
    assert |Rehosted(site, i, c).attachment.url| > 0;
  }

  /** One turn of postBug's loop for a comment after the first: its
      attachment, if any, gets the new url in place, and the comment is
      rendered for posting. */
  method PostComment(site: Site, comments: array<Comments.Comment>, i: nat) returns (body: string)
    requires 0 < i < comments.Length
    modifies comments
    ensures comments[i] == Rehosted(site, i, old(comments[i]))
    ensures forall k | 0 <= k < comments.Length && k != i :: comments[k] == old(comments[k])
    ensures body == Comments.ToString(comments[i])
  {
    var comment := comments[i];
    if comment.attachment != Attachments.NoAttachment {
      var url := HostedUrl(site, comment);
      comments[i] := comments[i].(attachment := comments[i].attachment.(url := url));
    }
    body := Comments.ToString(comments[i]);
  }

  /** The loop of postBug over the bug's comments, which share their storage
      with the caller's list: every comment after the first that has an
      attachment gets its new url in place, and every comment after the first
      is posted once rewritten. Returns the posted bodies in order. */
  method PostComments(site: Site, comments: array<Comments.Comment>) returns (bodies: seq<string>)
    modifies comments
    ensures forall i | 0 <= i < comments.Length :: comments[i] == Rehosted(site, i, old(comments[i]))
    ensures |bodies| == if comments.Length == 0 then 0 else comments.Length - 1
    ensures forall k | 0 <= k < |bodies| :: bodies[k] == Comments.ToString(comments[k + 1])
  {
    ghost var original := comments[..];
    bodies := [];
    for i := 0 to comments.Length
      invariant forall k | 0 <= k < i :: comments[k] == Rehosted(site, k, original[k])
      invariant forall k | i <= k < comments.Length :: comments[k] == original[k]
      invariant |bodies| == if i == 0 then 0 else i - 1
      invariant forall k | 0 <= k < |bodies| :: bodies[k] == Comments.ToString(comments[k + 1])
    {
      if i > 0 {
        ghost var before := comments[..];
        var body := PostComment(site, comments, i);
        bodies := bodies + [body];
        forall k | 0 <= k < |bodies| ensures bodies[k] == Comments.ToString(comments[k + 1]) {
          if k + 1 < i {
            assert comments[k + 1] == before[k + 1];
          }
        }
      } else {
        assert Rehosted(site, 0, original[0]) == original[0];
      }
    }
  }

  /** What postBug sends: the issue, the comments, and whether it closes the issue. */
  datatype Posting = Posting(title: string, body: string, commentBodies: seq<string>, close: bool)

  /** postBug: the issue is titled with the description and has Bug.ToString
      as its body (not the long form); the comments are rewritten and posted;
      the issue is closed when the bug is closed. */
  method PostBug(bug: Bugs.Bug, comments: array<Comments.Comment>) returns (p: Posting)
    requires comments[..] == bug.comments
    modifies comments
    ensures p.title == bug.description && p.body == Bugs.ToString(bug)
    ensures forall i | 0 <= i < comments.Length :: comments[i] == Rehosted(Apsim, i, old(comments[i]))
    ensures |p.commentBodies| == if comments.Length == 0 then 0 else comments.Length - 1
    ensures forall k | 0 <= k < |p.commentBodies| :: p.commentBodies[k] == Comments.ToString(comments[k + 1])
    ensures p.close == Bugs.IsClosed(bug.(comments := comments[..]))
  {
    var title := bug.description;
    var body := Bugs.ToString(bug);
    var bodies := PostComments(Apsim, comments);
    p := Posting(title, body, bodies, Bugs.IsClosed(bug.(comments := comments[..])));
  }

  // ---------------------------------------------------------------------
  // closeIssues
  // ---------------------------------------------------------------------

  /** The state of a closed GitHub issue. */
  const ClosedState := "closed"

  /** The close decision: the legacy bug is closed and the issue's state,
      lower-cased, is not "closed". */
  predicate ShouldClose(legacy: Bugs.Bug, issue: Matching.Issue)
  {
    Bugs.IsClosed(legacy) && ToLower(issue.state) != ClosedState
  }

  /** The usual spellings of the closed state all lower-case to it. */
  lemma ClosedLower()
    ensures ToLower("closed") == ClosedState
  {
  }

  lemma ClosedCapitalised()
    ensures ToLower("Closed") == ClosedState
  {
  }

  lemma ClosedUpper()
    ensures ToLower("CLOSED") == ClosedState
  {
  }

  /** An issue whose state lower-cases to "closed" (as "closed", "Closed" and
      "CLOSED" do) is never closed again, an open issue of a closed bug
      always is, and an issue of an open bug never is. */
  lemma ShouldCloseCases(legacy: Bugs.Bug, issue: Matching.Issue)
    ensures ToLower(issue.state) == ClosedState ==> !ShouldClose(legacy, issue)
    ensures issue.state in {"closed", "Closed", "CLOSED"} ==> !ShouldClose(legacy, issue)
    ensures Bugs.IsClosed(legacy) && issue.state == "open" ==> ShouldClose(legacy, issue)
    ensures !Bugs.IsClosed(legacy) ==> !ShouldClose(legacy, issue)
  {
    if issue.state == "open" {
      assert ToLower(issue.state)[0] == 'o';
    } else if issue.state in {"closed", "Closed", "CLOSED"} {
      ClosedLower();
      ClosedCapitalised();
      ClosedUpper();
    }
  }

  /** Whether closeIssues closes `issue`: its legacy bug is found and the
      close decision holds. */
  predicate Closes(bugs: seq<Bugs.Bug>, issue: Matching.Issue)
  {
    Matching.Resolvable(issue, bugs) && ShouldClose(Matching.LegacyBugOf(issue, bugs), issue)
  }

  /** The numbers of the issues that `keep` selects, in the order of `issues`. */
  function NumbersWhere(keep: Matching.Issue -> bool, issues: seq<Matching.Issue>): seq<int>
  {
    if issues == [] then []
    else
      var last := issues[|issues| - 1];
      var before := NumbersWhere(keep, issues[..|issues| - 1]);
      if keep(last) then before + [last.number] else before
  }

  /** Every number selected is that of an issue `keep` holds for. */
  lemma {:induction false} NumbersWhereSound(keep: Matching.Issue -> bool, issues: seq<Matching.Issue>)
    ensures |NumbersWhere(keep, issues)| <= |issues|
    ensures forall n | n in NumbersWhere(keep, issues) ::
              exists k | 0 <= k < |issues| :: issues[k].number == n && keep(issues[k])
  {
    if issues != [] {
      var init := issues[..|issues| - 1];
      assert forall k | 0 <= k < |init| :: init[k] == issues[k];
      NumbersWhereSound(keep, init);
    }
  }

  /** When `keep` holds for every issue, every issue's number is selected, in order. */
  lemma {:induction false} NumbersWhereAll(keep: Matching.Issue -> bool, issues: seq<Matching.Issue>)
    requires forall k | 0 <= k < |issues| :: keep(issues[k])
    ensures |NumbersWhere(keep, issues)| == |issues|
    ensures forall k | 0 <= k < |issues| :: NumbersWhere(keep, issues)[k] == issues[k].number
  {
    if issues != [] {
      var init := issues[..|issues| - 1];
      var last := issues[|issues| - 1];
      assert forall k | 0 <= k < |init| :: init[k] == issues[k];
      NumbersWhereAll(keep, init);
      var all, before := NumbersWhere(keep, issues), NumbersWhere(keep, init);
      assert all == before + [last.number];
      forall k | 0 <= k < |issues| ensures all[k] == issues[k].number {
        if k < |init| {
          assert all[k] == before[k];
        }
      }
    }
  }

  /** The numbers of the issues closeIssues closes, in the order of `issues`. */
  function ClosePlan(issues: seq<Matching.Issue>, bugs: seq<Bugs.Bug>): seq<int>
  {
    NumbersWhere(issue => Closes(bugs, issue), issues)
  }

  /** Every issue closed is one whose legacy bug is closed and which is not
      closed already, and no more issues are closed than there are. */
  lemma ClosePlanSound(issues: seq<Matching.Issue>, bugs: seq<Bugs.Bug>)
    ensures |ClosePlan(issues, bugs)| <= |issues|
    ensures forall n | n in ClosePlan(issues, bugs) ::
              exists k | 0 <= k < |issues| :: issues[k].number == n && Closes(bugs, issues[k])
  {
    NumbersWhereSound(issue => Closes(bugs, issue), issues);
  }

  /** When every issue's legacy bug is closed and no issue is closed yet,
      every issue is closed, in order. */
  lemma ClosePlanComplete(issues: seq<Matching.Issue>, bugs: seq<Bugs.Bug>)
    requires forall k | 0 <= k < |issues| :: Matching.Resolvable(issues[k], bugs)
    requires forall k | 0 <= k < |issues| :: ShouldClose(Matching.LegacyBugOf(issues[k], bugs), issues[k])
    ensures |ClosePlan(issues, bugs)| == |issues|
    ensures forall k | 0 <= k < |issues| :: ClosePlan(issues, bugs)[k] == issues[k].number
  {
    NumbersWhereAll(issue => Closes(bugs, issue), issues);
  }

  /** One step of closeIssues' loop: the plan for one more issue adds that
      issue's number exactly when it is to be closed. */
  lemma ClosePlanStep(issues: seq<Matching.Issue>, bugs: seq<Bugs.Bug>, i: nat)
    requires i < |issues|
    ensures ClosePlan(issues[..i + 1], bugs)
         == ClosePlan(issues[..i], bugs) + (if Closes(bugs, issues[i]) then [issues[i].number] else [])
  {
    assert issues[..i + 1][..i] == issues[..i];
  }

  /** How many issues closeIssues gets through: the position of the first
      issue whose legacy bug cannot be found, or all of them. */
  function FirstUnresolvable(issues: seq<Matching.Issue>, bugs: seq<Bugs.Bug>): (n: nat)
    ensures n <= |issues|
    ensures forall k | 0 <= k < n :: Matching.Resolvable(issues[k], bugs)
    ensures n < |issues| ==> !Matching.Resolvable(issues[n], bugs)
  {
    FirstFailing(issue => Matching.Resolvable(issue, bugs), issues)
  }

  /** The position of the first element of `xs` that fails `p`, or |xs|. */
  function FirstFailing<T>(p: T -> bool, xs: seq<T>): (n: nat)
    ensures n <= |xs|
    ensures forall k | 0 <= k < n :: p(xs[k])
    ensures n < |xs| ==> !p(xs[n])
  {
    if xs == [] || !p(xs[0]) then 0
    else 1 + FirstFailing(p, xs[1..])
  }

  /** One step of closeIssues' loop: the issue at `i` is either handled too
      or it is where the loop stops. */
  lemma FirstUnresolvableStep(issues: seq<Matching.Issue>, bugs: seq<Bugs.Bug>, i: nat)
    requires i < |issues| && i <= FirstUnresolvable(issues, bugs)
    ensures Matching.Resolvable(issues[i], bugs) ==> i + 1 <= FirstUnresolvable(issues, bugs)
    ensures !Matching.Resolvable(issues[i], bugs) ==> i == FirstUnresolvable(issues, bugs)
  {
  }

  /** The lookup closeIssues makes for one issue: by the legacy id its body
      names, or by its title when it names none. None stands for the panic
      of getBugFromId or getBugFromTitle when no bug matches. */
  method FindLegacyBug(issue: Matching.Issue, bugs: seq<Bugs.Bug>) returns (legacy: Option<Bugs.Bug>)
    ensures legacy.None? <==> !Matching.Resolvable(issue, bugs)
    ensures legacy.Some? ==> legacy.value == Matching.LegacyBugOf(issue, bugs)
  {
    var legacyId := Matching.GetLegacyId(issue);
    if legacyId >= 0 {
      if !exists k | 0 <= k < |bugs| :: bugs[k].id == legacyId {
        return None;
      }
      legacy := Some(Matching.GetBugFromId(bugs, legacyId));
    } else {
      if !exists k | 0 <= k < |bugs| :: bugs[k].description == issue.title {
        return None;
      }
      legacy := Some(Matching.GetBugFromTitle(bugs, issue.title));
    }
  }

  /** One iteration of closeIssues' loop short of closing: the legacy bug is
      looked up and the close decision taken; None when the lookup panics. */
  method CloseDecision(issue: Matching.Issue, bugs: seq<Bugs.Bug>) returns (decision: Option<bool>)
    ensures decision.None? <==> !Matching.Resolvable(issue, bugs)
    ensures decision.Some? ==> decision.value == Closes(bugs, issue)
  {
    var legacyIssue := FindLegacyBug(issue, bugs);
    if legacyIssue.None? {
      return None;
    }
    decision := Some(Bugs.IsClosed(legacyIssue.value) && ToLower(issue.state) != ClosedState);
  }

  /** closeIssues: each issue is matched to its legacy bug and, when the
      decision says so, closed. The lookup panics at the first issue whose
      legacy bug is not in the list, once the issues before it are handled.
      Returns the numbers of the issues closed and how many issues were
      handled: all of them, or the position of the issue whose lookup panicked. */
  method CloseIssues(issues: seq<Matching.Issue>, bugs: seq<Bugs.Bug>) returns (closed: seq<int>, handled: nat)
    ensures handled == FirstUnresolvable(issues, bugs)
    ensures closed == ClosePlan(issues[..handled], bugs)
  {
    closed := [];
    for i := 0 to |issues|
      invariant i <= FirstUnresolvable(issues, bugs)
      invariant closed == ClosePlan(issues[..i], bugs)
    {
      var decision := CloseDecision(issues[i], bugs);
      FirstUnresolvableStep(issues, bugs, i);
      if decision.None? {
        return closed, i;
      }
      ClosePlanStep(issues, bugs, i);
      if decision.value {
        closed := closed + [issues[i].number];
      } else {
        assert closed + [] == closed;
      }
    }
    handled := |issues|;
    assert issues[..|issues|] == issues;
  }

  // ---------------------------------------------------------------------
  // fixFormatting
  // ---------------------------------------------------------------------

  /** A comment on a GitHub issue. */
  datatype IssueComment = IssueComment(id: int, body: string)

  /** An update fixFormatting sends. */
  datatype Edit = IssueEdit(number: int, body: string) | CommentEdit(id: int, body: string)

  /** The body with every tab removed. */
  function StripTabs(body: string): (r: string)
    ensures '\t' !in r
    ensures |r| == |body| - multiset(body)['\t']
    ensures forall c | c != '\t' :: multiset(r)[c] == multiset(body)[c]
  {
    RemoveChar(body, '\t')
  }

  /** Stripping a stripped body changes nothing; a body changes exactly when it has a tab. */
  lemma StripTabsFacts(body: string)
    ensures StripTabs(StripTabs(body)) == StripTabs(body)
    ensures StripTabs(body) != body <==> '\t' in body
  {
    RemoveCharAbsent(StripTabs(body), '\t');
    RemoveCharChanges(body, '\t');
  }

  /** Stripping keeps the other characters in their order: it strips the
      parts of a body separately, drops a lone tab and keeps any other
      character. */
  lemma StripTabsKeepsOrder(a: string, b: string, x: char)
    ensures StripTabs(a + b) == StripTabs(a) + StripTabs(b)
    ensures StripTabs([x]) == if x == '\t' then [] else [x]
  {
    RemoveCharAppend(a, b, '\t');
    RemoveCharOne(x, '\t');
  }

  /** The updates for the comments of one issue, in order: one per comment with a tab. */
  function CommentEdits(comments: seq<IssueComment>): (edits: seq<Edit>)
    ensures |edits| <= |comments|
  {
    if comments == [] then []
    else
      var c := comments[|comments| - 1];
      CommentEdits(comments[..|comments| - 1])
        + (if '\t' in c.body then [CommentEdit(c.id, StripTabs(c.body))] else [])
  }

  /** The updates for one issue: its body when it has a tab, then its comments'. */
  function IssueEdits(issue: Matching.Issue, comments: seq<IssueComment>): seq<Edit>
  {
    (if '\t' in issue.body then [IssueEdit(issue.number, StripTabs(issue.body))] else [])
      + CommentEdits(comments)
  }

  /** All updates of fixFormatting, issue by issue; `threads` gives the
      comments fetched for an issue number. */
  function FormattingEdits(issues: seq<Matching.Issue>, threads: int -> seq<IssueComment>): seq<Edit>
  {
    if issues == [] then []
    else
      var last := issues[|issues| - 1];
      FormattingEdits(issues[..|issues| - 1], threads) + IssueEdits(last, threads(last.number))
  }

  /** Every update carries a tab-free body. */
  lemma {:induction false} FormattingEditsTabFree(issues: seq<Matching.Issue>, threads: int -> seq<IssueComment>)
    ensures forall e | e in FormattingEdits(issues, threads) :: '\t' !in e.body
  {
    if issues != [] {
      FormattingEditsTabFree(issues[..|issues| - 1], threads);
      var last := issues[|issues| - 1];
      CommentEditsTabFree(threads(last.number));
    }
  }

  lemma {:induction false} CommentEditsTabFree(comments: seq<IssueComment>)
    ensures forall e | e in CommentEdits(comments) :: '\t' !in e.body
  {
    if comments != [] {
      CommentEditsTabFree(comments[..|comments| - 1]);
    }
  }

  /** The comments with their tabs removed. */
  function FixedComments(comments: seq<IssueComment>): (fixed: seq<IssueComment>)
    ensures |fixed| == |comments|
    ensures forall k | 0 <= k < |comments| ::
              fixed[k] == comments[k].(body := StripTabs(comments[k].body))
  {
    seq(|comments|, k requires 0 <= k < |comments| => comments[k].(body := StripTabs(comments[k].body)))
  }

  /** No update is sent exactly when no body has a tab. */
  lemma {:induction false} CommentEditsEmpty(comments: seq<IssueComment>)
    ensures CommentEdits(comments) == [] <==> forall k | 0 <= k < |comments| :: '\t' !in comments[k].body
  {
    if comments != [] {
      var init := comments[..|comments| - 1];
      assert forall k | 0 <= k < |init| :: init[k] == comments[k];
      CommentEditsEmpty(init);
    }
  }

  /** After the updates are applied, a second run sends none. */
  lemma SecondPassEditsNothing(issues: seq<Matching.Issue>, threads: int -> seq<IssueComment>)
    ensures FormattingEdits(
              seq(|issues|, k requires 0 <= k < |issues| => issues[k].(body := StripTabs(issues[k].body))),
              n => FixedComments(threads(n))) == []
  {
    var fixed := seq(|issues|, k requires 0 <= k < |issues| => issues[k].(body := StripTabs(issues[k].body)));
    var fixedThreads := n => FixedComments(threads(n));
    forall n, k | 0 <= k < |fixedThreads(n)| ensures '\t' !in fixedThreads(n)[k].body {
      assert fixedThreads(n) == FixedComments(threads(n));
    }
    FixedEditsEmpty(fixed, fixedThreads);
  }

  lemma {:induction false} FixedEditsEmpty(issues: seq<Matching.Issue>, threads: int -> seq<IssueComment>)
    requires forall k | 0 <= k < |issues| :: '\t' !in issues[k].body
    requires forall n, k | 0 <= k < |threads(n)| :: '\t' !in threads(n)[k].body
    ensures FormattingEdits(issues, threads) == []
  {
    if issues != [] {
      var init := issues[..|issues| - 1];
      assert forall k | 0 <= k < |init| :: init[k] == issues[k];
      FixedEditsEmpty(init, threads);
      CommentEditsEmpty(threads(issues[|issues| - 1].number));
    }
  }

  /** The update for one comment, if it needs one. */
  function CommentEdit1(c: IssueComment): seq<Edit>
  {
    if '\t' in c.body then [CommentEdit(c.id, StripTabs(c.body))] else []
  }

  /** One step of the inner loop. */
  lemma CommentEditsSnoc(comments: seq<IssueComment>, n: nat)
    requires n < |comments|
    ensures CommentEdits(comments[..n + 1]) == CommentEdits(comments[..n]) + CommentEdit1(comments[n])
  {
    assert comments[..n + 1][..n] == comments[..n];
  }

  /** One step of the outer loop. */
  lemma FormattingEditsSnoc(issues: seq<Matching.Issue>, threads: int -> seq<IssueComment>, i: nat)
    requires i < |issues|
    ensures FormattingEdits(issues[..i + 1], threads)
         == FormattingEdits(issues[..i], threads) + IssueEdits(issues[i], threads(issues[i].number))
  {
    assert issues[..i + 1][..i] == issues[..i];
  }

  /** The inner loop of fixFormatting: each comment of one issue that has
      a tab is updated, in order. */
  method FixCommentFormatting(comments: seq<IssueComment>) returns (edits: seq<Edit>)
    ensures edits == CommentEdits(comments)
  {
    edits := [];
    for commentNo := 0 to |comments|
      invariant edits == CommentEdits(comments[..commentNo])
    {
      var comment := comments[commentNo];
      CommentEditsSnoc(comments, commentNo);
      if '\t' in comment.body {
        var newCommentBody := StripTabs(comment.body);
        edits := edits + [CommentEdit(comment.id, newCommentBody)];
      }
    }
    assert comments[..|comments|] == comments;
  }

  /** fixFormatting: for each issue, its body is updated when it has a tab,
      then each of its comments with a tab is updated. */
  method FixFormatting(issues: seq<Matching.Issue>, threads: int -> seq<IssueComment>)
    returns (edits: seq<Edit>)
    ensures edits == FormattingEdits(issues, threads)
  {
    edits := [];
    for i := 0 to |issues|
      invariant edits == FormattingEdits(issues[..i], threads)
    {
      var issue := issues[i];
      var issueEdits := [];
      if '\t' in issue.body {
        var newBody := StripTabs(issue.body);
        issueEdits := [IssueEdit(issue.number, newBody)];
      }
      var commentEdits := FixCommentFormatting(threads(issue.number));
      FormattingEditsSnoc(issues, threads, i);
      edits := edits + (issueEdits + commentEdits);
    }
    assert issues[..|issues|] == issues;
  }

  // ---------------------------------------------------------------------
  // getGithubIssues
  // ---------------------------------------------------------------------

  /** The pages of a run, concatenated. */
  function Flatten(pages: seq<seq<Matching.Issue>>): (all: seq<Matching.Issue>)
  {
    if pages == [] then [] else Flatten(pages[..|pages| - 1]) + pages[|pages| - 1]
  }

  /** How many issues are collected once page `k` is appended. */
  function Collected(pages: seq<seq<Matching.Issue>>, k: nat): nat
    requires k < |pages|
  {
    |Flatten(pages[..k + 1])|
  }

  /** The limit in force: a negative `max` becomes the number of the first
      issue of the first page, when that page is not empty. */
  function EffectiveMax(pages: seq<seq<Matching.Issue>>, max: int): int
    requires |pages| >= 1
  {
    if max < 0 && |pages[0]| > 0 then pages[0][0].number else max
  }

  /** The page after which the loop stops, looking from page `k` on: the
      first one that is last, or after which `limit` issues are collected. */
  function StopPage(pages: seq<seq<Matching.Issue>>, limit: int, k: nat): (stop: nat)
    requires k < |pages|
    ensures k <= stop < |pages|
    ensures stop + 1 == |pages| || Collected(pages, stop) >= limit
    ensures forall j | k <= j < stop :: Collected(pages, j) < limit
    decreases |pages| - k
  {
    if k + 1 == |pages| || Collected(pages, k) >= limit then k
    else StopPage(pages, limit, k + 1)
  }

  /** What getGithubIssues returns for the pages the server would serve. */
  function GithubIssues(pages: seq<seq<Matching.Issue>>, max: int): seq<Matching.Issue>
    requires |pages| >= 1
  {
    Flatten(pages[..StopPage(pages, EffectiveMax(pages, max), 0) + 1])
  }

  /** The issues of the first pages come first. */
  lemma {:induction false} FlattenPrefix(pages: seq<seq<Matching.Issue>>, k: nat)
    requires k <= |pages|
    ensures |Flatten(pages[..k])| <= |Flatten(pages)|
    ensures Flatten(pages[..k]) == Flatten(pages)[..|Flatten(pages[..k])|]
    decreases |pages| - k
  {
    if k < |pages| {
      var init := pages[..|pages| - 1];
      assert init[..k] == pages[..k];
      FlattenPrefix(init, k);
    } else {
      assert pages[..k] == pages;
    }
  }

  /** The result starts with the whole first page and is a prefix of all the
      issues; the loop stops at the last page or once `max` issues (after the
      first-page substitution) are collected, and not a page later. */
  lemma GithubIssuesBounds(pages: seq<seq<Matching.Issue>>, max: int)
    requires |pages| >= 1
    ensures var got := GithubIssues(pages, max);
      var all := Flatten(pages);
      var limit := EffectiveMax(pages, max);
      && |pages[0]| <= |got| <= |all| && got[..|pages[0]|] == pages[0]
      && got == all[..|got|]
      && (got == all || |got| >= limit)
  {
    var limit := EffectiveMax(pages, max);
    var stop := StopPage(pages, limit, 0);
    FlattenPrefix(pages, stop + 1);
    FlattenPrefix(pages[..stop + 1], 1);
    assert pages[..stop + 1][..1] == [pages[0]];
    assert Flatten([pages[0]]) == pages[0] by {
      assert [pages[0]][..0] == [];
    }
    if stop + 1 == |pages| {
      assert pages[..stop + 1] == pages;
    }
  }

  /** getGithubIssues: pages are fetched in order and appended; the first
      page sets the limit when `max` is negative; the loop stops when there
      is no next page or the issues collected reach the limit. */
  method GetGithubIssues(pages: seq<seq<Matching.Issue>>, max: int) returns (issues: seq<Matching.Issue>)
    requires |pages| >= 1
    ensures issues == GithubIssues(pages, max)
  {
    var limit := max;
    var first := true;
    var numIssues := 0;
    var k := 0;
    issues := [];
    ghost var effective := EffectiveMax(pages, max);
    while true
      invariant 0 <= k < |pages|
      invariant issues == Flatten(pages[..k])
      invariant first <==> k == 0
      invariant first ==> limit == max
      invariant !first ==> limit == effective
      invariant StopPage(pages, effective, 0) == StopPage(pages, effective, k)
      decreases |pages| - k
    {
      var bugs := pages[k];
      if first {
        first := false;
        if |bugs| > 0 {
          numIssues := bugs[0].number;
          if limit < 0 {
            limit := numIssues;
          }
        }
      }
      assert pages[..k + 1][..k] == pages[..k];
      issues := issues + bugs;
      if k + 1 == |pages| || |issues| >= limit {
        break;
      }
      k := k + 1;
    }
  }

  // ---------------------------------------------------------------------
  // fixLinksv2
  // ---------------------------------------------------------------------

  /** The link fixLinksv2 writes for an attachment named `name` of the
      legacy comment `c`: spaces in the name become underscores. */
  function FixedLink(site: Site, name: string, c: Comments.Comment): string
  {
    "[" + name + "](https://" + site.host + AttachmentPath(site.dir, c.id, Attachments.CleanName(name)) + ")"
  }

  /** The link written with a comment's own id leads to the url postBug gave
      that comment's attachment, whenever the clean file name is the
      space-free name. */
  lemma FixedLinkOwnComment(site: Site, i: nat, c: Comments.Comment)
    requires site.host == [] || (site.host[0] != '/' && site.host[|site.host| - 1] != '/')
    requires i > 0 && Attachments.IsPresent(c.attachment)
    requires Attachments.GetCleanFileName(c.attachment) == Attachments.CleanName(c.attachment.name)
    ensures FixedLink(site, c.attachment.name, c)
         == "[" + c.attachment.name + "](https://" + Rehosted(site, i, c).attachment.url + ")"
  {
    var path := AttachmentPath(site.dir, c.id, Attachments.CleanName(c.attachment.name));
    assert Rehosted(site, i, c).attachment.url == site.host + path;
  }

  /** fixLinksv2 points at the place postBug moved the file to, whenever the
      comment getCommentWithContent picks for the attachment's name is the
      comment that carries the attachment and the clean file name is the
      space-free name. */
  lemma FixedLinkTargetsHostedUrl(site: Site, comments: seq<Comments.Comment>, i: nat)
    requires site.host == [] || (site.host[0] != '/' && site.host[|site.host| - 1] != '/')
    requires 0 < i < |comments| && Attachments.IsPresent(comments[i].attachment)
    requires Attachments.GetCleanFileName(comments[i].attachment) == Attachments.CleanName(comments[i].attachment.name)
    requires exists k | 0 <= k < |comments| :: Matching.Contains(comments[k].text, comments[i].attachment.name)
    requires Matching.GetCommentWithContent(comments, comments[i].attachment.name).id == comments[i].id
    ensures var name := comments[i].attachment.name;
      FixedLink(site, name, Matching.GetCommentWithContent(comments, name))
        == "[" + name + "](https://" + Rehosted(site, i, comments[i]).attachment.url + ")"
  {
    var c := comments[i];
    var picked := Matching.GetCommentWithContent(comments, c.attachment.name);
    assert FixedLink(site, c.attachment.name, picked) == FixedLink(site, c.attachment.name, c);
    FixedLinkOwnComment(site, i, c);
  }
}
