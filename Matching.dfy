/** How TransferIssues.go ties a GitHub issue back to the legacy bug it was
    made from: getLegacyId reads the bug number out of the issue body, and
    the first-match lookups getBugFromId, getBugFromTitle and
    getCommentWithContent find the bug or comment in the scraped lists. */
module Matching {
  import opened Wrappers
  import opened Text
  import Dates
  import Comments
  import Bugs

  /** The fields of a GitHub issue the tool reads. */
  datatype Issue = Issue(number: int, title: string, body: string, state: string)

  /** The marker of the current issue bodies, and the one older runs wrote. */
  const LegacyMarker := "Legacy Bug ID: "
  const BugMarker := "Bug #"

  // ---------------------------------------------------------------------
  // The patterns `Legacy Bug ID: (\d+)` and `Bug #(\d+)`
  // ---------------------------------------------------------------------

  /** `m` occurs in `s` at position `i` and is followed by a digit. */
  predicate MarkerAt(s: string, m: string, i: int)
  {
    0 <= i && i + |m| < |s| && s[i..i + |m|] == m && IsDigit(s[i + |m|])
  }

  /** Whether the pattern `m(\d+)` matches somewhere in `s`. */
  predicate HasMarker(s: string, m: string)
  {
    exists i | 0 <= i < |s| :: MarkerAt(s, m, i)
  }

  /** The leftmost match at or after `from`, or -1 when there is none. */
  function FindMarker(s: string, m: string, from: nat): (i: int)
    requires from <= |s|
    ensures i == -1 || (from <= i < |s| && MarkerAt(s, m, i))
    decreases |s| - from
  {
    if from == |s| then -1
    else if MarkerAt(s, m, from) then from
    else FindMarker(s, m, from + 1)
  }

  /** FindMarker misses no match: nothing matches between `from` and its
      result, nor anywhere after `from` when it gives -1. */
  lemma {:induction false} FindMarkerFacts(s: string, m: string, from: nat)
    requires from <= |s|
    ensures var i := FindMarker(s, m, from);
      forall k | from <= k < |s| && (i == -1 || k < i) :: !MarkerAt(s, m, k)
    decreases |s| - from
  {
    if from < |s| && !MarkerAt(s, m, from) {
      FindMarkerFacts(s, m, from + 1);
    }
  }

  /** The end of the maximal run of digits starting at `j`. */
  function DigitRunEnd(s: string, j: nat): (e: nat)
    requires j <= |s|
    ensures j <= e <= |s| && AllDigits(s[j..e])
    ensures e == |s| || !IsDigit(s[e])
    decreases |s| - j
  {
    if j < |s| && IsDigit(s[j]) then
      var e := DigitRunEnd(s, j + 1);
      assert s[j..e] == [s[j]] + s[j + 1..e];
      e
    else j
  }

  /** A digit run ending before a non-digit is the maximal one. */
  lemma {:induction false} DigitRunEndIs(s: string, j: nat, e: nat)
    requires j <= e <= |s| && AllDigits(s[j..e])
    requires e == |s| || !IsDigit(s[e])
    ensures DigitRunEnd(s, j) == e
    decreases e - j
  {
    if j < e {
      assert s[j..e][0] == s[j];
      assert s[j + 1..e] == s[j..e][1..];
      DigitRunEndIs(s, j + 1, e);
    }
  }

  /** What `m(\d+)` captures: the value of the maximal digit run after the
      leftmost match, or None when the pattern does not match. */
  function Capture(s: string, m: string): Option<nat>
  {
    var i := FindMarker(s, m, 0);
    if i == -1 then None else Some(ParseDecimal(s[i + |m|..DigitRunEnd(s, i + |m|)]))
  }

  /** The pattern captures something exactly when it matches. */
  lemma CaptureNone(s: string, m: string)
    ensures Capture(s, m).None? <==> !HasMarker(s, m)
  {
    FindMarkerFacts(s, m, 0);
  }

  /** getLegacyId: the number after the leftmost "Legacy Bug ID: " when there
      is one, whatever "Bug #" markers the body also holds; otherwise the
      number after the leftmost "Bug #"; otherwise -1. */
  function GetLegacyId(issue: Issue): int
  {
    match Capture(issue.body, LegacyMarker)
    case Some(id) => id
    case None =>
      match Capture(issue.body, BugMarker)
      case Some(id) => id
      case None => -1
  }

  /** getLegacyId gives -1 exactly when neither pattern matches, the
      "Legacy Bug ID: " capture whenever that pattern matches, and the
      "Bug #" capture otherwise. */
  lemma GetLegacyIdCases(issue: Issue)
    ensures var id := GetLegacyId(issue);
      && id >= -1
      && (id == -1 <==> !HasMarker(issue.body, LegacyMarker) && !HasMarker(issue.body, BugMarker))
      && (HasMarker(issue.body, LegacyMarker) ==> Some(id) == Capture(issue.body, LegacyMarker))
      && (!HasMarker(issue.body, LegacyMarker) && HasMarker(issue.body, BugMarker) ==>
            Some(id) == Capture(issue.body, BugMarker))
  {
    CaptureNone(issue.body, LegacyMarker);
    CaptureNone(issue.body, BugMarker);
  }

  /** A match starts with the marker's first character, so a prefix free of
      that character holds no part of a match. */
  lemma NoMarkerAfterPrefix(p: string, y: string, m: string)
    requires |m| >= 1 && m[0] !in p
    ensures HasMarker(p + y, m) ==> HasMarker(y, m)
  {
    var s := p + y;
    if HasMarker(s, m) {
      var i :| 0 <= i < |s| && MarkerAt(s, m, i);
      assert s[i] == m[0] by {
        assert s[i..i + |m|][0] == s[i];
      }
      assert i >= |p|;
      var j := i - |p|;
      assert y[j..j + |m|] == s[i..i + |m|];
      assert MarkerAt(y, m, j);
    }
  }

  /** A character that is neither in the marker nor a digit cannot lie
      inside a match: every match lies wholly on one side of it. */
  lemma Barrier(x: string, sep: char, y: string, m: string)
    requires sep !in m && !IsDigit(sep)
    ensures HasMarker(x + [sep] + y, m) ==> HasMarker(x, m) || HasMarker(y, m)
  {
    var s := x + [sep] + y;
    if HasMarker(s, m) {
      var i :| 0 <= i < |s| && MarkerAt(s, m, i);
      assert s[|x|] == sep;
      assert forall k | 0 <= k < |m| :: m[k] == s[i + k];
      assert i + |m| < |x| || i > |x|;
      if i + |m| < |x| {
        assert x[i..i + |m|] == s[i..i + |m|];
        assert MarkerAt(x, m, i);
      } else {
        var j := i - |x| - 1;
        assert y[j..j + |m|] == s[i..i + |m|];
        assert MarkerAt(y, m, j);
      }
    }
  }

  /** Lines free of matches, joined by newlines, hold no match. */
  lemma {:induction false} JoinHasNoMarker(lines: seq<string>, m: string)
    requires |lines| >= 1 && '\n' !in m
    requires forall k | 0 <= k < |lines| :: !HasMarker(lines[k], m)
    ensures !HasMarker(Join(lines, '\n'), m)
  {
    if |lines| > 1 {
      JoinHasNoMarker(lines[1..], m);
      Barrier(lines[0], '\n', Join(lines[1..], '\n'), m);
    }
  }

  /** The lines of the body Bug.ToString builds. */
  function BodyLines(b: Bugs.Bug): seq<string>
  {
    [BugMarker + IntToDecimal(b.id), "Author: " + b.author, "Date: " + Dates.Render(b.date),
     "Title: " + b.description, "", ""]
  }

  /** Four lines followed by two empty ones, joined by newlines. */
  lemma JoinFourLines(l0: string, l1: string, l2: string, l3: string)
    ensures Join([l0, l1, l2, l3, "", ""], '\n') == l0 + "\n" + l1 + "\n" + l2 + "\n" + l3 + "\n\n"
  {
    var lines := [l0, l1, l2, l3, "", ""];
    assert lines[5..] == [""];
    assert lines[4..][1..] == lines[5..];
    assert Join(lines[4..], '\n') == "\n";
    assert lines[3..][1..] == lines[4..];
    assert Join(lines[3..], '\n') == l3 + "\n\n";
    assert lines[2..][1..] == lines[3..];
    assert Join(lines[2..], '\n') == l2 + "\n" + (l3 + "\n\n");
    assert lines[1..][1..] == lines[2..];
    assert Join(lines[1..], '\n') == l1 + "\n" + (l2 + "\n" + (l3 + "\n\n"));
    assert Join(lines, '\n') == l0 + "\n" + (l1 + "\n" + (l2 + "\n" + (l3 + "\n\n")));
  }

  lemma BodyIsLines(b: Bugs.Bug)
    ensures Bugs.ToString(b) == Join(BodyLines(b), '\n')
  {
    JoinFourLines(BugMarker + IntToDecimal(b.id), "Author: " + b.author, "Date: " + Dates.Render(b.date),
                  "Title: " + b.description);
  }

  /** The body holds no "Legacy Bug ID: " match unless a field brings one. */
  lemma BodyHasNoLegacyMarker(b: Bugs.Bug)
    requires !HasMarker(b.author, LegacyMarker)
    requires !HasMarker(Dates.Render(b.date), LegacyMarker)
    requires !HasMarker(b.description, LegacyMarker)
    ensures !HasMarker(Bugs.ToString(b), LegacyMarker)
  {
    var lines := BodyLines(b);
    IdLineHasNoLegacyMarker(b.id);
    NoLegacyMarkerAfter("Author: ", b.author);
    NoLegacyMarkerAfter("Date: ", Dates.Render(b.date));
    NoLegacyMarkerAfter("Title: ", b.description);
    assert forall k | 0 <= k < |lines| :: !HasMarker(lines[k], LegacyMarker);
    JoinHasNoMarker(lines, LegacyMarker);
    BodyIsLines(b);
  }

  /** A prefix without an 'L' brings no "Legacy Bug ID: " match. */
  lemma NoLegacyMarkerAfter(p: string, y: string)
    requires 'L' !in p && !HasMarker(y, LegacyMarker)
    ensures !HasMarker(p + y, LegacyMarker)
  {
    NoMarkerAfterPrefix(p, y, LegacyMarker);
  }

  /** The first line, "Bug #" and the id, holds no "Legacy Bug ID: " match. */
  lemma IdLineHasNoLegacyMarker(id: int)
    ensures !HasMarker(BugMarker + IntToDecimal(id), LegacyMarker)
  {
    var line := BugMarker + IntToDecimal(id);
    var d := IntToDecimal(id);
    assert forall k | 0 <= k < |d| :: d[k] == '-' || IsDigit(d[k]);
    assert 'L' !in line;
    NoLegacyMarkerAfter(line, "");
    assert line + "" == line;
  }

  /** The body opens with "Bug #", the id's digits and a newline. */
  lemma BodyOpening(b: Bugs.Bug)
    ensures var s := Bugs.ToString(b);
      var n := |BugMarker|;
      var digits := IntToDecimal(b.id);
      && n + |digits| < |s|
      && s[..n] == BugMarker && s[n..n + |digits|] == digits && s[n + |digits|] == '\n'
  {
  }

  /** When the pattern matches at the start, the capture is the digit run
      right after the marker. */
  lemma CaptureOfMarkerAtStart(s: string, m: string)
    requires MarkerAt(s, m, 0)
    ensures Capture(s, m) == Some(ParseDecimal(s[|m|..DigitRunEnd(s, |m|)]))
  {
    assert FindMarker(s, m, 0) == 0;
  }

  /** A string that opens with the marker and a digit matches at its start. */
  lemma MarkerAtStart(s: string, m: string)
    requires |m| < |s| && s[..|m|] == m && IsDigit(s[|m|])
    ensures MarkerAt(s, m, 0)
  {
    assert s[0..|m|] == s[..|m|];
  }

  /** A string that opens with the marker, a maximal run of digits and a
      non-digit captures the value of those digits. */
  lemma CaptureAtStart(s: string, m: string, digits: string)
    requires |digits| >= 1 && AllDigits(digits)
    requires |m| + |digits| < |s|
    requires s[..|m|] == m
    requires s[|m|..|m| + |digits|] == digits
    requires !IsDigit(s[|m| + |digits|])
    ensures Capture(s, m) == Some(ParseDecimal(digits))
  {
    var n := |m|;
    assert s[n] == digits[0];
    MarkerAtStart(s, m);
    var e := n + |digits|;
    assert AllDigits(s[n..e]);
    DigitRunEndIs(s, n, e);
    CaptureOfMarkerAtStart(s, m);
  }

  /** "Bug #" opens the body, followed by the id's digits and a newline, so
      the "Bug #" pattern captures the id. */
  lemma BodyCapturesId(b: Bugs.Bug)
    requires b.id >= 0
    ensures Capture(Bugs.ToString(b), BugMarker) == Some(b.id)
  {
    BodyOpening(b);
    ParseDecimalOfNatToDecimal(b.id);
    CaptureAtStart(Bugs.ToString(b), BugMarker, IntToDecimal(b.id));
  }

  /** The body posted for a bug, Bug.ToString, reads back through
      getLegacyId as the bug's id, as long as its author, title and rendered
      date do not themselves hold a "Legacy Bug ID: " match. */
  lemma GetLegacyIdOfBugBody(b: Bugs.Bug, number: int, title: string, state: string)
    requires b.id >= 0
    requires !HasMarker(b.author, LegacyMarker)
    requires !HasMarker(Dates.Render(b.date), LegacyMarker)
    requires !HasMarker(b.description, LegacyMarker)
    ensures GetLegacyId(Issue(number, title, Bugs.ToString(b), state)) == b.id
  {
    BodyHasNoLegacyMarker(b);
    CaptureNone(Bugs.ToString(b), LegacyMarker);
    BodyCapturesId(b);
  }

  // ---------------------------------------------------------------------
  // First-match lookups
  // ---------------------------------------------------------------------

  /** getBugFromId: the first bug, in list order, with the id; it panics
      when there is none. */
  function GetBugFromId(bugs: seq<Bugs.Bug>, id: int): (b: Bugs.Bug)
    requires exists k | 0 <= k < |bugs| :: bugs[k].id == id
    ensures b in bugs && b.id == id
    ensures forall k | 0 <= k < |bugs| && bugs[k].id == id && (forall j | 0 <= j < k :: bugs[j].id != id) ::
              bugs[k] == b
  {
    if bugs[0].id == id then bugs[0]
    else
      assert forall k | 1 <= k < |bugs| :: bugs[1..][k - 1] == bugs[k];
      GetBugFromId(bugs[1..], id)
  }

  /** getBugFromTitle: the first bug, in list order, whose description is
      the title; it panics when there is none. */
  function GetBugFromTitle(bugs: seq<Bugs.Bug>, title: string): (b: Bugs.Bug)
    requires exists k | 0 <= k < |bugs| :: bugs[k].description == title
    ensures b in bugs && b.description == title
    ensures forall k | 0 <= k < |bugs| && bugs[k].description == title &&
                       (forall j | 0 <= j < k :: bugs[j].description != title) ::
              bugs[k] == b
  {
    if bugs[0].description == title then bugs[0]
    else
      assert forall k | 1 <= k < |bugs| :: bugs[1..][k - 1] == bugs[k];
      GetBugFromTitle(bugs[1..], title)
  }

  /** `part` occurs in `s` at position `i`. */
  predicate OccursAt(s: string, part: string, i: int)
  {
    0 <= i && i + |part| <= |s| && s[i..i + |part|] == part
  }

  /** strings.Contains(s, part). */
  predicate Contains(s: string, part: string)
  {
    exists i | 0 <= i <= |s| :: OccursAt(s, part, i)
  }

  /** getCommentWithContent: the first comment, in list order, whose text
      contains `content`; it panics when there is none. */
  function GetCommentWithContent(comments: seq<Comments.Comment>, content: string): (c: Comments.Comment)
    requires exists k | 0 <= k < |comments| :: Contains(comments[k].text, content)
    ensures c in comments && Contains(c.text, content)
    ensures forall k | 0 <= k < |comments| && Contains(comments[k].text, content) &&
                       (forall j | 0 <= j < k :: !Contains(comments[j].text, content)) ::
              comments[k] == c
  {
    if Contains(comments[0].text, content) then comments[0]
    else
      assert forall k | 1 <= k < |comments| :: comments[1..][k - 1] == comments[k];
      GetCommentWithContent(comments[1..], content)
  }

  /** Whether the lookups closeIssues and fixLinksv2 make for an issue succeed:
      by legacy id when the body names one, by title otherwise. */
  predicate Resolvable(issue: Issue, bugs: seq<Bugs.Bug>)
  {
    var id := GetLegacyId(issue);
    if id >= 0 then exists k | 0 <= k < |bugs| :: bugs[k].id == id
    else exists k | 0 <= k < |bugs| :: bugs[k].description == issue.title
  }

  /** The legacy bug of an issue: looked up by the id its body names, or by
      its title when the body names none. */
  function LegacyBugOf(issue: Issue, bugs: seq<Bugs.Bug>): (b: Bugs.Bug)
    requires Resolvable(issue, bugs)
    ensures b in bugs
    ensures GetLegacyId(issue) >= 0 ==> b.id == GetLegacyId(issue)
    ensures GetLegacyId(issue) == -1 ==> b.description == issue.title
  {
    var id := GetLegacyId(issue);
    if id >= 0 then GetBugFromId(bugs, id) else GetBugFromTitle(bugs, issue.title)
  }
}
