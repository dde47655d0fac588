/** comment.go: one post in a bug's thread and the text it is posted as. */
module Comments {
  import opened Dates
  import Attachments

  /** `id` is an int64 in the source; the model does not bound it. */
  datatype Comment = Comment(id: int, author: string, date: Date, text: string,
                             attachment: Attachments.Attachment)

  /** The labels of the author and date lines. */
  const AuthorLabel := "Author: "
  const DateLabel := "Date: "

  /** The two header lines and the blank line every rendered comment starts with. */
  function Header(c: Comment): string
  {
    AuthorLabel + c.author + "\n" + DateLabel + Render(c.date) + "\n\n"
  }

  /** Comment.ToString. */
  function ToString(c: Comment): string
  {
    Header(c) + if c.attachment == Attachments.NoAttachment then c.text
                else Attachments.ToString(c.attachment)
  }

  /** The rendering is the header, then the attachment's link and size when
      there is an attachment, and the comment's own text otherwise. */
  lemma ToStringLayout(c: Comment)
    ensures var s := ToString(c);
      && |Header(c)| <= |s| && s[..|Header(c)|] == Header(c)
      && (!Attachments.IsPresent(c.attachment) ==> s[|Header(c)|..] == c.text)
      && (Attachments.IsPresent(c.attachment) ==> s[|Header(c)|..] == Attachments.ToString(c.attachment))
  {
    var s := ToString(c);
    assert s == Header(c) + s[|Header(c)|..];
  }

  /** The comment's id is never printed. */
  lemma ToStringIgnoresId(c: Comment, id: int)
    ensures ToString(c.(id := id)) == ToString(c)
  {
  }

  /** With an attachment the comment's text is dropped: any text gives the same rendering. */
  lemma ToStringIgnoresTextWithAttachment(c: Comment, text: string)
    requires Attachments.IsPresent(c.attachment)
    ensures ToString(c.(text := text)) == ToString(c)
  {
  }

  /** Without an attachment the text is kept whole: different texts render differently. */
  lemma ToStringKeepsTextWithoutAttachment(c: Comment, text: string)
    requires !Attachments.IsPresent(c.attachment)
    requires text != c.text
    ensures ToString(c.(text := text)) != ToString(c)
  {
    var h := Header(c);
    ToStringLayout(c);
    ToStringLayout(c.(text := text));
    assert Header(c.(text := text)) == h;
    assert ToString(c.(text := text))[|h|..] == text;
  }
}
