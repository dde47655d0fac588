/** bug.go: a bug of the legacy tracker and the two texts it is rendered as. */
module Bugs {
  import opened Text
  import opened Dates
  import Comments

  /** `id` is an int64 in the source; the model does not bound it. */
  datatype Bug = Bug(id: int, description: string, priority: string, status: string,
                     project: string, category: string, author: string, date: Date,
                     assignee: string, comments: seq<Comments.Comment>)

  /** Bug.IsClosed; its body is not among the source files of this model. */
  const IsClosed: Bug -> bool

  const BugPrefix := "Bug #"

  /** Bug.ToString: the id, author, date and title lines, then a blank line. */
  function ToString(b: Bug): (s: string)
    ensures |s| > |BugPrefix| && s[..|BugPrefix|] == BugPrefix
    ensures b.id >= 0 ==> IsDigit(s[|BugPrefix|])
  {
    BugPrefix + IntToDecimal(b.id) + "\n"
      + "Author: " + b.author + "\n"
      + "Date: " + Render(b.date) + "\n"
      + "Title: " + b.description + "\n\n"
  }

  /** ToString depends on the id, author, date and description only. */
  lemma ToStringIgnoresOtherFields(b: Bug, priority: string, status: string, project: string,
                                   category: string, assignee: string,
                                   comments: seq<Comments.Comment>)
    ensures ToString(b.(priority := priority, status := status, project := project,
                        category := category, assignee := assignee, comments := comments))
         == ToString(b)
  {
  }

  /** What the comment at position `i` adds to the long rendering: the raw
      text for the first comment (it is the bug's description body), and a
      numbered heading with the rendered comment for every later one. */
  function Section(i: nat, c: Comments.Comment): string
  {
    if i > 0 then "\n\nCOMMENT " + NatToDecimal(i) + ":\n\n" + Comments.ToString(c)
    else c.text
  }

  /** The pieces `render` gives the comments of `cs`, in order, the first
      of them at position `first`. */
  function SectionsOf(render: (nat, Comments.Comment) -> string, cs: seq<Comments.Comment>, first: nat): string
  {
    if cs == [] then ""
    else SectionsOf(render, cs[..|cs| - 1], first) + render(first + |cs| - 1, cs[|cs| - 1])
  }

  /** The sections of `cs`, the first of which sits at position `first`. */
  function Sections(cs: seq<Comments.Comment>, first: nat): string
  {
    SectionsOf(Section, cs, first)
  }

  /** Appending a comment extends the pieces by exactly that comment's piece. */
  lemma SectionsOfAppend(render: (nat, Comments.Comment) -> string, cs: seq<Comments.Comment>,
                         c: Comments.Comment, first: nat)
    ensures SectionsOf(render, cs + [c], first) == SectionsOf(render, cs, first) + render(first + |cs|, c)
  {
    assert (cs + [c])[..|cs|] == cs;
  }

  /** Splitting off the first comment: its piece, then the rest one position on. */
  lemma {:induction false} SectionsOfCons(render: (nat, Comments.Comment) -> string, c: Comments.Comment,
                                          cs: seq<Comments.Comment>, first: nat)
    ensures SectionsOf(render, [c] + cs, first) == render(first, c) + SectionsOf(render, cs, first + 1)
  {
    if cs == [] {
      assert ([c] + cs)[..0] == [];
    } else {
      var init := cs[..|cs| - 1];
      assert ([c] + cs)[..|cs|] == [c] + init;
      SectionsOfCons(render, c, init, first);
    }
  }

  /** The first comment contributes its text alone, without heading or header;
      the others keep their positions. */
  lemma SectionsOfFirstComment(c: Comments.Comment, cs: seq<Comments.Comment>)
    ensures Sections([c] + cs, 0) == c.text + Sections(cs, 1)
  {
    SectionsOfCons(Section, c, cs, 0);
  }

  /** One step of the rendering loop: appending the piece of comment `i`
      to the first `i` pieces gives the first `i + 1`. */
  lemma SectionsOfStep(render: (nat, Comments.Comment) -> string, head: string,
                       cs: seq<Comments.Comment>, i: nat)
    requires i < |cs|
    ensures head + SectionsOf(render, cs[..i], 0) + render(i, cs[i]) == head + SectionsOf(render, cs[..i + 1], 0)
  {
    SectionsOfAppend(render, cs[..i], cs[i], 0);
    assert cs[..i + 1] == cs[..i] + [cs[i]];
  }

  /** Bug.ToLongString: ToString followed by the section of every comment, in list order. */
  method ToLongString(b: Bug) returns (s: string)
    ensures s == ToString(b) + Sections(b.comments, 0)
    ensures |ToString(b)| <= |s| && s[..|ToString(b)|] == ToString(b)
    ensures b.comments == [] ==> s == ToString(b)
  {
    var head := ToString(b);
    s := head;
    for i := 0 to |b.comments|
      invariant s == head + Sections(b.comments[..i], 0)
    {
      var comment := b.comments[i];
      var piece;
      if i > 0 {
        piece := "\n\nCOMMENT " + NatToDecimal(i) + ":\n\n" + Comments.ToString(comment);
      } else {
        piece := comment.text;
      }
      assert piece == Section(i, comment);
      SectionsOfStep(Section, head, b.comments, i);
      s := s + piece;
    }
    assert b.comments[..|b.comments|] == b.comments;
    assert s[..|head|] == head;
  }
}
