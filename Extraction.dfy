/** The extraction half of TransferIssues.go: the helpers min, contains,
    stripNonBreakingSpaces and isBlackListed, and the data logic of
    getComments and getBugs. The page fetches and goquery selectors are
    replaced by the texts they yield: a comment block is the handful of
    strings getComments reads from one `.cmt` element, a bug row the nine
    cell texts of one table row. */
module Extraction {
  import opened Wrappers
  import opened Text
  import opened Seqs
  import opened Dates
  import Attachments
  import Comments
  import Bugs

  // ---------------------------------------------------------------------
  // Helpers
  // ---------------------------------------------------------------------

  /** min: the smaller of two integers. */
  function Min(x: int, y: int): (m: int)
    ensures m <= x && m <= y
    ensures m == x || m == y
  {
    if x < y then x else y
  }

  /** contains: whether any element of `arr` equals any of `values`. */
  method Contains(arr: seq<string>, values: seq<string>) returns (found: bool)
    ensures found <==> exists i, j | 0 <= i < |arr| && 0 <= j < |values| :: arr[i] == values[j]
  {
    for i := 0 to |arr|
      invariant forall i', j | 0 <= i' < i && 0 <= j < |values| :: arr[i'] != values[j]
    {
      for j := 0 to |values|
        invariant forall j' | 0 <= j' < j :: arr[i] != values[j']
      {
        if arr[i] == values[j] {
          return true;
        }
      }
    }
    return false;
  }

  const NonBreakingSpace := '\U{00A0}'

  /** stripNonBreakingSpaces: every U+00A0 becomes a plain space, everything else stays. */
  function StripNonBreakingSpaces(s: string): (r: string)
    ensures |r| == |s|
    ensures NonBreakingSpace !in r
    ensures forall i | 0 <= i < |s| :: r[i] == if s[i] == NonBreakingSpace then ' ' else s[i]
  {
    ReplaceCharRemoves(s, NonBreakingSpace, ' ');
    ReplaceChar(s, NonBreakingSpace, ' ')
  }

  /** Stripping twice is stripping once. */
  lemma StripNonBreakingSpacesIdempotent(s: string)
    ensures StripNonBreakingSpaces(StripNonBreakingSpaces(s)) == StripNonBreakingSpaces(s)
  {
    ReplaceCharIdempotent(s, NonBreakingSpace, ' ');
  }

  /** The ids of comments whose markup is known to be broken. */
  const BlacklistedComments: seq<int> := [
    686, 688, 32121, 32124, 32125, 32284, 32287, 32295, 32311, 32331, 32355, 32380, 32394,
    32396, 32397, 32420, 32479, 32544, 32605, 32683, 32717, 32774, 32775, 32848, 32767,
    32938, 32939, 32984, 33012, 33438, 33552, 33888, 33926, 33950, 33951, 34103, 34108,
    34109, 34113, 34116, 34128, 34131, 34132, 33525, 33542, 33666, 33945, 33955, 34122, 34134 ]

  /** The scan of isBlackListed over a list of ids. */
  function Listed(id: int, list: seq<int>): (listed: bool)
    ensures listed <==> id in list
  {
    if list == [] then false else list[0] == id || Listed(id, list[1..])
  }

  /** isBlackListed. */
  function IsBlackListed(id: int): (listed: bool)
    ensures listed <==> id in BlacklistedComments
  {
    Listed(id, BlacklistedComments)
  }

  // ---------------------------------------------------------------------
  // getComments
  // ---------------------------------------------------------------------

  /** The texts getComments reads from one comment element. */
  datatype CommentBlock = CommentBlock(
    text: string,            // the trimmed text of the comment body
    metadata: string,        // the trimmed header line: id, author and date, space separated
    attachmentName: string,  // the text of the attachment's name node
    attachmentHref: string,  // the href next to it ("" when there is none)
    attachmentInfo: string)  // the text of the last `.pst` element; its second word is the size

  /** Every way extraction aborts the run. */
  datatype ExtractError =
    | IndexOutOfRange(bugId: int, metadata: string)         // a slice index out of range panics
    | BadInteger(text: string)                               // parseInt's log.Fatal
    | BadCommentDate(bugId: int, metadata: string, n: int)  // time.Parse failed on a comment date
    | BadBugDate(bugId: int)                                 // time.Parse failed on a bug date

  /** The words of a comment header, after non-breaking spaces are made plain. */
  function MetadataTokens(metadata: string): (tokens: seq<string>)
    ensures |tokens| >= 1
    ensures forall k | 0 <= k < |tokens| :: ' ' !in tokens[k] && NonBreakingSpace !in tokens[k]
  {
    var plain := StripNonBreakingSpaces(metadata);
    var tokens := Split(plain, ' ');
    assert forall k | 0 <= k < |tokens| :: NonBreakingSpace !in tokens[k] by {
      JoinSplit(plain, ' ');
      forall k | 0 <= k < |tokens| ensures NonBreakingSpace !in tokens[k] {
        JoinContainsPiece(tokens, ' ', k, NonBreakingSpace);
      }
    }
    tokens
  }

  /** A character of any piece occurs in the joined string. */
  lemma {:induction false} JoinContainsPiece(parts: seq<string>, sep: char, k: nat, c: char)
    requires |parts| >= 1 && k < |parts|
    ensures c in parts[k] ==> c in Join(parts, sep)
  {
    if c in parts[k] && |parts| > 1 {
      var i :| 0 <= i < |parts[k]| && parts[k][i] == c;
      if k == 0 {
        assert Join(parts, sep)[i] == c;
      } else {
        JoinContainsPiece(parts[1..], sep, k - 1, c);
        var rest := Join(parts[1..], sep);
        var j :| 0 <= j < |rest| && rest[j] == c;
        assert Join(parts, sep)[|parts[0]| + 1 + j] == c;
      }
    }
  }

  /** The word that marks a comment with an attachment. */
  const AttachmentSentinel := "file"

  /** The attachment of a comment whose header starts with "file": the size is
      the second word of the info text, the url the root url with the href. */
  function ParseAttachment(rootUrl: string, bugId: int, block: CommentBlock)
    : (r: Result<Attachments.Attachment, ExtractError>)
    ensures var info := Split(StripNonBreakingSpaces(block.attachmentInfo), ' ');
      && (r.Ok? <==> |info| >= 2 && ParseInt(info[1]).Some?)
      && (r.Ok? ==> Some(r.value.size) == ParseInt(info[1])
                    && r.value.name == block.attachmentName
                    && r.value.url == rootUrl + block.attachmentHref)
  {
    var info := Split(StripNonBreakingSpaces(block.attachmentInfo), ' ');
    if |info| < 2 then Err(IndexOutOfRange(bugId, block.attachmentInfo))
    else match ParseInt(info[1])
      case None => Err(BadInteger(info[1]))
      case Some(size) => Ok(Attachments.Attachment(block.attachmentName, size, rootUrl + block.attachmentHref))
  }

  /** Whether the header words can be indexed as getComments does: with n the
      last index, n - 4 always, and n - 5 too when word n - 4 holds a time. */
  predicate Indexable(tokens: seq<string>)
  {
    |tokens| >= 5 && (':' in tokens[|tokens| - 5] ==> |tokens| >= 6)
  }

  /** The date of a comment. With n the last index: when word n - 4 holds a
      colon, words n - 5, n - 4 and n - 3 (trailing commas trimmed) under the
      comment layout; otherwise word n - 3 alone under the date-only layout. */
  function CommentDate(tokens: seq<string>): (d: Date)
    requires Indexable(tokens)
    ensures var n := |tokens| - 1;
      && (d.layout == CommentLayout <==> ':' in tokens[n - 4])
      && (d.layout == ShortCommentLayout <==> ':' !in tokens[n - 4])
      && (':' in tokens[n - 4] ==>
            d.text == tokens[n - 5] + " " + tokens[n - 4] + " " + Trim(tokens[n - 3], ','))
      && (':' !in tokens[n - 4] ==> d.text == Trim(tokens[n - 3], ','))
  {
    var n := |tokens| - 1;
    if ':' in tokens[n - 4] then
      Date(CommentLayout, tokens[n - 5] + " " + tokens[n - 4] + " " + Trim(tokens[n - 3], ','))
    else
      Date(ShortCommentLayout, Trim(tokens[n - 3], ','))
  }

  /** One comment block, parsed as the body of getComments' callback does. */
  function ParseComment(rootUrl: string, bugId: int, block: CommentBlock)
    : Result<Comments.Comment, ExtractError>
  {
    var metadata := StripNonBreakingSpaces(block.metadata);
    var tokens := MetadataTokens(block.metadata);
    var attachment :=
      if tokens[0] == AttachmentSentinel then ParseAttachment(rootUrl, bugId, block)
      else Ok(Attachments.NoAttachment);
    if attachment.Err? then Err(attachment.error)
    else if !Indexable(tokens) then Err(IndexOutOfRange(bugId, metadata))
    else
      var date := CommentDate(tokens);
      if !Parses(date) then
        // the diagnostic printed before log.Fatal reads word n - 5, which a
        // five-word header does not have
        if |tokens| < 6 then Err(IndexOutOfRange(bugId, metadata))
        else Err(BadCommentDate(bugId, metadata, |tokens| - 1))
      else match ParseInt(tokens[1])
        case None => Err(BadInteger(tokens[1]))
        case Some(id) => Ok(Comments.Comment(id, tokens[4], date, block.text, attachment.value))
  }

  /** A parsed comment has the id of word 1, the author of word 4, the date
      CommentDate reads, the block's text, and the block's attachment when
      word 0 is the sentinel (none otherwise). */
  lemma ParseCommentFacts(rootUrl: string, bugId: int, block: CommentBlock)
    ensures var r := ParseComment(rootUrl, bugId, block);
      var tokens := MetadataTokens(block.metadata);
      && (r.Ok? ==>
            && Indexable(tokens)
            && Some(r.value.id) == ParseInt(tokens[1])
            && r.value.author == tokens[4]
            && r.value.date == CommentDate(tokens)
            && Parses(r.value.date)
            && r.value.text == block.text
            && (tokens[0] == AttachmentSentinel ==> ParseAttachment(rootUrl, bugId, block) == Ok(r.value.attachment))
            && (tokens[0] != AttachmentSentinel ==> r.value.attachment == Attachments.NoAttachment))
  {
  }

  /** Every way a comment fails, in the order getComments meets them: the
      attachment's size, then a header too short to index, then a date that
      does not parse (an index error instead when the header has only five
      words, as the diagnostic reads word n - 5), then the id; and a block
      that meets none of them parses. */
  lemma ParseCommentErrors(rootUrl: string, bugId: int, block: CommentBlock)
    ensures var r := ParseComment(rootUrl, bugId, block);
      var tokens := MetadataTokens(block.metadata);
      var metadata := StripNonBreakingSpaces(block.metadata);
      var attachment := ParseAttachment(rootUrl, bugId, block);
      && (tokens[0] == AttachmentSentinel && attachment.Err? ==> r == Err(attachment.error))
      && ((tokens[0] != AttachmentSentinel || attachment.Ok?) && !Indexable(tokens) ==>
            r == Err(IndexOutOfRange(bugId, metadata)))
      && ((tokens[0] != AttachmentSentinel || attachment.Ok?) && Indexable(tokens) &&
          !Parses(CommentDate(tokens)) ==>
            r == Err(if |tokens| < 6 then IndexOutOfRange(bugId, metadata)
                     else BadCommentDate(bugId, metadata, |tokens| - 1)))
      && ((tokens[0] != AttachmentSentinel || attachment.Ok?) && Indexable(tokens) &&
          Parses(CommentDate(tokens)) && ParseInt(tokens[1]).None? ==>
            r == Err(BadInteger(tokens[1])))
      && ((tokens[0] != AttachmentSentinel || attachment.Ok?) && Indexable(tokens) &&
          Parses(CommentDate(tokens)) && ParseInt(tokens[1]).Some? ==>
            r.Ok?)
  {
  }

  /** A separator-free, non-breaking-space-free list of words, joined by
      spaces, tokenises back into the same words. */
  lemma {:induction false} JoinAvoids(parts: seq<string>, sep: char, c: char)
    requires |parts| >= 1 && c != sep
    requires forall k | 0 <= k < |parts| :: c !in parts[k]
    ensures c !in Join(parts, sep)
  {
    if |parts| > 1 {
      JoinAvoids(parts[1..], sep, c);
    }
  }

  /** A header line made of words — the id as `%d` prints it in word 1, the
      author in word 4, a date at the position getComments looks — parses back
      into a comment with exactly that id, author and date. */
  lemma ParseCommentOfHeader(rootUrl: string, bugId: int, words: seq<string>, id: int,
                             text: string, block: CommentBlock)
    requires Indexable(words)
    requires forall k | 0 <= k < |words| :: ' ' !in words[k] && NonBreakingSpace !in words[k]
    requires words[0] != AttachmentSentinel && words[1] == IntToDecimal(id)
    requires Parses(CommentDate(words))
    requires block.metadata == Join(words, ' ') && block.text == text
    ensures ParseComment(rootUrl, bugId, block)
         == Ok(Comments.Comment(id, words[4], CommentDate(words), text, Attachments.NoAttachment))
  {
    JoinAvoids(words, ' ', NonBreakingSpace);
    var line := Join(words, ' ');
    assert StripNonBreakingSpaces(line) == line;
    SplitJoin(words, ' ');
    assert MetadataTokens(block.metadata) == words;
    ParseIntOfIntToDecimal(id);
  }

  /** Every item parsed in order; the first failure aborts. */
  function ParseAll<T, U>(parse: T -> Result<U, ExtractError>, items: seq<T>): (r: Result<seq<U>, ExtractError>)
    ensures r.Ok? ==> |r.value| == |items|
  {
    if items == [] then Ok([])
    else
      match ParseAll(parse, items[..|items| - 1])
      case Err(e) => Err(e)
      case Ok(done) =>
        match parse(items[|items| - 1])
        case Err(e) => Err(e)
        case Ok(x) => Ok(done + [x])
  }

  /** The run succeeds exactly when every item parses, and then result k is item k's. */
  lemma {:induction false} ParseAllOk<T, U>(parse: T -> Result<U, ExtractError>, items: seq<T>)
    ensures var r := ParseAll(parse, items);
      && (r.Ok? <==> forall k | 0 <= k < |items| :: parse(items[k]).Ok?)
      && (r.Ok? ==> forall k | 0 <= k < |items| :: parse(items[k]) == Ok(r.value[k]))
  {
    if items != [] {
      var init := items[..|items| - 1];
      ParseAllOk(parse, init);
      assert forall k | 0 <= k < |init| :: init[k] == items[k];
    }
  }

  /** A run that fails fails with the error of its first failing item. */
  lemma {:induction false} ParseAllFirstError<T, U>(parse: T -> Result<U, ExtractError>, items: seq<T>)
    requires ParseAll(parse, items).Err?
    ensures exists k | 0 <= k < |items| ::
      && parse(items[k]) == Err(ParseAll(parse, items).error)
      && forall j | 0 <= j < k :: parse(items[j]).Ok?
  {
    var init := items[..|items| - 1];
    assert forall k | 0 <= k < |init| :: init[k] == items[k];
    if ParseAll(parse, init).Err? {
      ParseAllFirstError(parse, init);
      var k :| 0 <= k < |init| && parse(init[k]) == Err(ParseAll(parse, init).error)
               && forall j | 0 <= j < k :: parse(init[j]).Ok?;
      assert parse(items[k]) == Err(ParseAll(parse, items).error);
    } else {
      ParseAllOk(parse, init);
      var k := |items| - 1;
      assert forall j | 0 <= j < k :: parse(items[j]).Ok?;
    }
  }

  /** A failure in a prefix is the failure of the whole run. */
  lemma {:induction false} ParseAllErrPrefix<T, U>(parse: T -> Result<U, ExtractError>, items: seq<T>, k: nat)
    requires k <= |items| && ParseAll(parse, items[..k]).Err?
    ensures ParseAll(parse, items) == ParseAll(parse, items[..k])
    decreases |items|
  {
    if k < |items| {
      var init := items[..|items| - 1];
      assert init[..k] == items[..k];
      ParseAllErrPrefix(parse, init, k);
    } else {
      assert items[..k] == items;
    }
  }

  /** Every block parsed in page order; the first failure aborts. */
  function ParseComments(rootUrl: string, bugId: int, blocks: seq<CommentBlock>)
    : Result<seq<Comments.Comment>, ExtractError>
  {
    ParseAll(block => ParseComment(rootUrl, bugId, block), blocks)
  }

  /** A thread parses exactly when every block does, and then comment k is
      block k's comment; a thread that fails fails with the error of its
      first failing block. */
  lemma ParseCommentsFacts(rootUrl: string, bugId: int, blocks: seq<CommentBlock>)
    ensures var r := ParseComments(rootUrl, bugId, blocks);
      && (r.Ok? ==> |r.value| == |blocks|)
      && (r.Ok? <==> forall k | 0 <= k < |blocks| :: ParseComment(rootUrl, bugId, blocks[k]).Ok?)
      && (r.Ok? ==> forall k | 0 <= k < |blocks| :: ParseComment(rootUrl, bugId, blocks[k]) == Ok(r.value[k]))
      && (r.Err? ==> exists k | 0 <= k < |blocks| ::
            && ParseComment(rootUrl, bugId, blocks[k]) == Err(r.error)
            && forall j | 0 <= j < k :: ParseComment(rootUrl, bugId, blocks[j]).Ok?)
  {
    var parse := block => ParseComment(rootUrl, bugId, block);
    ParseAllOk(parse, blocks);
    if ParseComments(rootUrl, bugId, blocks).Err? {
      ParseAllFirstError(parse, blocks);
    }
  }

  /** A failure in a prefix is the failure of the whole page. */
  lemma ParseCommentsErrPrefix(rootUrl: string, bugId: int, blocks: seq<CommentBlock>, k: nat)
    requires k <= |blocks| && ParseComments(rootUrl, bugId, blocks[..k]).Err?
    ensures ParseComments(rootUrl, bugId, blocks) == ParseComments(rootUrl, bugId, blocks[..k])
  {
    ParseAllErrPrefix(block => ParseComment(rootUrl, bugId, block), blocks, k);
  }

  /** The comments whose id is not blacklisted, in their original order. */
  function Unlisted(cs: seq<Comments.Comment>): seq<Comments.Comment>
  {
    if cs == [] then []
    else
      var rest := Unlisted(cs[..|cs| - 1]);
      var last := cs[|cs| - 1];
      if IsBlackListed(last.id) then rest else rest + [last]
  }

  /** Unlisted keeps exactly the comments whose id is not blacklisted. */
  lemma {:induction false} UnlistedFacts(cs: seq<Comments.Comment>)
    ensures forall k | 0 <= k < |Unlisted(cs)| :: !IsBlackListed(Unlisted(cs)[k].id)
    ensures forall c | c in Unlisted(cs) :: c in cs
    ensures forall c | c in cs && !IsBlackListed(c.id) :: c in Unlisted(cs)
  {
    if cs != [] {
      var init, last := cs[..|cs| - 1], cs[|cs| - 1];
      UnlistedFacts(init);
      assert cs == init + [last];
      var rest := Unlisted(init);
      assert Unlisted(cs) == if IsBlackListed(last.id) then rest else rest + [last];
    }
  }

  /** The filter works piece by piece, so the comments kept stay in their
      order: filtering a concatenation concatenates the two results. */
  lemma {:induction false} UnlistedAppend(a: seq<Comments.Comment>, b: seq<Comments.Comment>)
    ensures Unlisted(a + b) == Unlisted(a) + Unlisted(b)
    decreases |b|
  {
    if b == [] {
      assert a + b == a;
    } else {
      var init, last := b[..|b| - 1], b[|b| - 1];
      assert b == init + [last];
      assert a + b == (a + init) + [last];
      UnlistedAppend(a, init);
      UnlistedSnoc(a + init, last);
      UnlistedSnoc(init, last);
    }
  }

  /** What getComments returns: the parsed comments that are not blacklisted,
      in the reverse of the order the page lists them. */
  function CommentsOf(rootUrl: string, bugId: int, blocks: seq<CommentBlock>)
    : Result<seq<Comments.Comment>, ExtractError>
  {
    match ParseComments(rootUrl, bugId, blocks)
    case Err(e) => Err(e)
    case Ok(cs) => Ok(Reverse(Unlisted(cs)))
  }

  /** getComments never returns a blacklisted comment, and returns every
      other comment of the page. */
  lemma CommentsOfFiltersBlacklist(rootUrl: string, bugId: int, blocks: seq<CommentBlock>)
    requires CommentsOf(rootUrl, bugId, blocks).Ok?
    ensures var out := CommentsOf(rootUrl, bugId, blocks).value;
      var parsed := ParseComments(rootUrl, bugId, blocks).value;
      && (forall c | c in out :: !IsBlackListed(c.id))
      && (forall c | c in parsed :: c in out <==> !IsBlackListed(c.id))
  {
    UnlistedFacts(ParseComments(rootUrl, bugId, blocks).value);
    ReverseMembers(Unlisted(ParseComments(rootUrl, bugId, blocks).value));
  }

  /** Unlisted of one more comment keeps that comment unless its id is blacklisted. */
  lemma UnlistedSnoc(cs: seq<Comments.Comment>, c: Comments.Comment)
    ensures Unlisted(cs + [c]) == Unlisted(cs) + (if IsBlackListed(c.id) then [] else [c])
  {
    assert (cs + [c])[..|cs|] == cs;
  }

  /** One step of getComments' loop: parsing one more block either fails
      with that block's error or appends its comment. */
  lemma GetCommentsStep(rootUrl: string, bugId: int, blocks: seq<CommentBlock>, i: nat)
    requires i < |blocks| && ParseComments(rootUrl, bugId, blocks[..i]).Ok?
    ensures var done := ParseComments(rootUrl, bugId, blocks[..i]).value;
      var parsed := ParseComment(rootUrl, bugId, blocks[i]);
      ParseComments(rootUrl, bugId, blocks[..i + 1])
        == if parsed.Err? then Err(parsed.error) else Ok(done + [parsed.value])
  {
    assert blocks[..i + 1][..i] == blocks[..i];
  }

  /** getComments: each block is parsed in page order and, unless its id is
      blacklisted, prepended to the result; a failure aborts. */
  method GetComments(rootUrl: string, bugId: int, blocks: seq<CommentBlock>)
    returns (r: Result<seq<Comments.Comment>, ExtractError>)
    ensures r == CommentsOf(rootUrl, bugId, blocks)
  {
    var comments: seq<Comments.Comment> := [];
    for i := 0 to |blocks|
      invariant ParseComments(rootUrl, bugId, blocks[..i]).Ok?
      invariant comments == Reverse(Unlisted(ParseComments(rootUrl, bugId, blocks[..i]).value))
    {
      GetCommentsStep(rootUrl, bugId, blocks, i);
      var parsed := ParseComment(rootUrl, bugId, blocks[i]);
      if parsed.Err? {
        ParseCommentsErrPrefix(rootUrl, bugId, blocks, i + 1);
        return Err(parsed.error);
      }
      var comment := parsed.value;
      ghost var done := ParseComments(rootUrl, bugId, blocks[..i]).value;
      UnlistedSnoc(done, comment);
      if !IsBlackListed(comment.id) {
        ReverseSnoc(Unlisted(done), comment);
        comments := [comment] + comments;
      } else {
        assert Unlisted(done) + [] == Unlisted(done);
      }
    }
    assert blocks[..|blocks|] == blocks;
    return Ok(comments);
  }

  // ---------------------------------------------------------------------
  // getBugs
  // ---------------------------------------------------------------------

  /** The nine cell texts of a row of the bug table, in column order. */
  datatype BugRow = BugRow(id: string, priority: string, status: string, description: string,
                           project: string, category: string, author: string, date: string,
                           assignee: string)

  /** Bugs with a larger id are skipped. */
  const MaxBugId := 2000

  /** numBugs: the index of the last row (-1 for an empty table), lowered to
      `n` when 0 < n < that index. */
  function NumBugs(rowCount: nat, n: int): (numBugs: int)
    ensures numBugs <= rowCount - 1
    ensures 0 < n < rowCount - 1 ==> numBugs == n
    ensures !(0 < n < rowCount - 1) ==> numBugs == rowCount - 1
  {
    var last := rowCount - 1;
    if n > 0 && n < last then n else last
  }

  /** The rows getBugs processes: exactly those at indices 0 < i < numBugs. */
  function Window(rows: seq<BugRow>, numBugs: int): (w: seq<BugRow>)
    requires numBugs < |rows| || numBugs <= 1
    ensures |w| == if numBugs <= 1 then 0 else numBugs - 1
    ensures forall k | 0 <= k < |w| :: w[k] == rows[k + 1]
  {
    if numBugs <= 1 then [] else rows[1..numBugs]
  }

  /** One row: None when its id is above MaxBugId, the bug otherwise. */
  function ParseBug(url: string, row: BugRow, threads: int -> seq<CommentBlock>)
    : Result<Option<Bugs.Bug>, ExtractError>
  {
    match ParseInt(row.id)
    case None => Err(BadInteger(row.id))
    case Some(id) =>
      if id > MaxBugId then Ok(None)
      else
        var date := Date(BugLayout, row.date);
        if !Parses(date) then Err(BadBugDate(id))
        else
          match CommentsOf(url, id, threads(id))
          case Err(e) => Err(e)
          case Ok(comments) =>
            Ok(Some(Bugs.Bug(id, row.description, row.priority, row.status, row.project,
                             row.category, RemoveChar(row.author, ':'), date, row.assignee,
                             comments)))
  }

  /** A row is skipped exactly when its id parses to more than MaxBugId;
      a bug parsed from a row has the row's id, at most MaxBugId, the row's
      text fields, the author without colons, a date that parses under the
      bug layout, and the comments getComments gives for its id. */
  lemma ParseBugFacts(url: string, row: BugRow, threads: int -> seq<CommentBlock>)
    ensures var r := ParseBug(url, row, threads);
      && (r == Ok(None) <==> (ParseInt(row.id).Some? && ParseInt(row.id).value > MaxBugId))
      && (r.Ok? && r.value.Some? ==>
            var b := r.value.value;
            && Some(b.id) == ParseInt(row.id) && b.id <= MaxBugId
            && b.description == row.description && b.priority == row.priority
            && b.status == row.status && b.project == row.project
            && b.category == row.category && b.assignee == row.assignee
            && b.author == RemoveChar(row.author, ':')
            && b.date == Date(BugLayout, row.date) && Parses(b.date)
            && Ok(b.comments) == CommentsOf(url, b.id, threads(b.id)))
  {
  }

  /** Every way a row fails, in the order getBugs meets them, and when it
      gives a bug: an id parseInt rejects, then (for an id of at most
      MaxBugId) a date that does not parse, then a comment thread that fails;
      a row that meets none of them gives its bug. */
  lemma ParseBugErrors(url: string, row: BugRow, threads: int -> seq<CommentBlock>)
    ensures var r := ParseBug(url, row, threads);
      var id := ParseInt(row.id);
      && (id.None? ==> r == Err(BadInteger(row.id)))
      && (id.Some? && id.value <= MaxBugId && !Parses(Date(BugLayout, row.date)) ==>
            r == Err(BadBugDate(id.value)))
      && (id.Some? && id.value <= MaxBugId && Parses(Date(BugLayout, row.date)) &&
          CommentsOf(url, id.value, threads(id.value)).Err? ==>
            r == Err(CommentsOf(url, id.value, threads(id.value)).error))
      && (id.Some? && id.value <= MaxBugId && Parses(Date(BugLayout, row.date)) &&
          CommentsOf(url, id.value, threads(id.value)).Ok? ==>
            r.Ok? && r.value.Some?)
  {
  }

  /** The results `parse` keeps from a run of items, in order: an item
      parsed to None gives nothing, and the first failure aborts. */
  function ParseKept<T, U>(parse: T -> Result<Option<U>, ExtractError>, items: seq<T>)
    : (r: Result<seq<U>, ExtractError>)
    ensures r.Ok? ==> |r.value| <= |items|
  {
    if items == [] then Ok([])
    else
      match ParseKept(parse, items[..|items| - 1])
      case Err(e) => Err(e)
      case Ok(us) =>
        match parse(items[|items| - 1])
        case Err(e) => Err(e)
        case Ok(None) => Ok(us)
        case Ok(Some(u)) => Ok(us + [u])
  }

  /** The run is kept exactly when every item parses; when it fails, it
      fails with the error of the first item that does. */
  lemma {:induction false} ParseKeptFacts<T, U>(parse: T -> Result<Option<U>, ExtractError>, items: seq<T>)
    ensures ParseKept(parse, items).Ok? <==> forall k | 0 <= k < |items| :: parse(items[k]).Ok?
    ensures ParseKept(parse, items).Err? ==>
              exists k | 0 <= k < |items| ::
                && parse(items[k]).Err?
                && ParseKept(parse, items).error == parse(items[k]).error
                && forall j | 0 <= j < k :: parse(items[j]).Ok?
  {
    if items != [] {
      var init := items[..|items| - 1];
      var last := |items| - 1;
      ParseKeptFacts(parse, init);
      assert forall k | 0 <= k < |init| :: init[k] == items[k];
      if ParseKept(parse, init).Err? {
        var k :| 0 <= k < |init| && parse(init[k]).Err?
                 && ParseKept(parse, init).error == parse(init[k]).error
                 && forall j | 0 <= j < k :: parse(init[j]).Ok?;
        assert parse(items[k]).Err?;
      } else if parse(items[last]).Err? {
        assert forall j | 0 <= j < last :: parse(items[j]).Ok?;
      }
    }
  }

  /** The bugs of a run of rows in table order; skipped rows give none and
      the first failure aborts. */
  function ParseBugs(url: string, rows: seq<BugRow>, threads: int -> seq<CommentBlock>)
    : Result<seq<Bugs.Bug>, ExtractError>
  {
    ParseKept(row => ParseBug(url, row, threads), rows)
  }

  /** At most one bug per row, every bug parsed from one of the rows, and
      exactly one per row when no row is skipped. */
  lemma {:induction false} ParseBugsProvenance(url: string, rows: seq<BugRow>, threads: int -> seq<CommentBlock>)
    requires ParseBugs(url, rows, threads).Ok?
    ensures var bs := ParseBugs(url, rows, threads).value;
      && |bs| <= |rows|
      && (forall b | b in bs :: b.id <= MaxBugId &&
            exists k | 0 <= k < |rows| :: ParseBug(url, rows[k], threads) == Ok(Some(b)))
      && ((forall k | 0 <= k < |rows| :: ParseBug(url, rows[k], threads) != Ok(None)) ==> |bs| == |rows|)
  {
    if rows != [] {
      var init := rows[..|rows| - 1];
      ParseBugsProvenance(url, init, threads);
      ParseBugFacts(url, rows[|rows| - 1], threads);
      assert forall k | 0 <= k < |init| :: init[k] == rows[k];
    }
  }

  /** A run of rows parses exactly when every row does; when it fails, it
      fails with the error of the first row that does. */
  lemma ParseBugsFacts(url: string, rows: seq<BugRow>, threads: int -> seq<CommentBlock>)
    ensures ParseBugs(url, rows, threads).Ok? <==>
              forall k | 0 <= k < |rows| :: ParseBug(url, rows[k], threads).Ok?
    ensures ParseBugs(url, rows, threads).Err? ==>
              exists k | 0 <= k < |rows| ::
                && ParseBug(url, rows[k], threads).Err?
                && ParseBugs(url, rows, threads).error == ParseBug(url, rows[k], threads).error
                && forall j | 0 <= j < k :: ParseBug(url, rows[j], threads).Ok?
  {
    ParseKeptFacts(row => ParseBug(url, row, threads), rows);
  }

  /** A failure in a prefix is the failure of the whole table. */
  lemma {:induction false} ParseBugsErrPrefix(url: string, rows: seq<BugRow>, threads: int -> seq<CommentBlock>, k: nat)
    requires k <= |rows| && ParseBugs(url, rows[..k], threads).Err?
    ensures ParseBugs(url, rows, threads) == ParseBugs(url, rows[..k], threads)
    decreases |rows|
  {
    if k < |rows| {
      var init := rows[..|rows| - 1];
      assert init[..k] == rows[..k];
      ParseBugsErrPrefix(url, init, threads, k);
    } else {
      assert rows[..k] == rows;
    }
  }

  /** What getBugs returns: the bugs of the window rows, in reverse table order. */
  function BugsOf(url: string, n: int, rows: seq<BugRow>, threads: int -> seq<CommentBlock>)
    : Result<seq<Bugs.Bug>, ExtractError>
  {
    match ParseBugs(url, Window(rows, NumBugs(|rows|, n)), threads)
    case Err(e) => Err(e)
    case Ok(bs) => Ok(Reverse(bs))
  }

  /** getBugs returns its bugs exactly when every window row parses; when
      one does not, it fails with the error of the first window row that
      fails, as log.Fatal ends the run there. */
  lemma BugsOfFacts(url: string, n: int, rows: seq<BugRow>, threads: int -> seq<CommentBlock>)
    ensures var numBugs := NumBugs(|rows|, n);
      BugsOf(url, n, rows, threads).Ok? <==>
        forall i | 0 < i < numBugs :: ParseBug(url, rows[i], threads).Ok?
    ensures var numBugs := NumBugs(|rows|, n);
      BugsOf(url, n, rows, threads).Err? ==>
        exists i | 0 < i < numBugs ::
          && ParseBug(url, rows[i], threads).Err?
          && BugsOf(url, n, rows, threads).error == ParseBug(url, rows[i], threads).error
          && forall j | 0 < j < i :: ParseBug(url, rows[j], threads).Ok?
  {
    var numBugs := NumBugs(|rows|, n);
    var w := Window(rows, numBugs);
    ParseBugsFacts(url, w, threads);
    assert forall i | 0 < i < numBugs :: rows[i] == w[i - 1];
    if ParseBugs(url, w, threads).Err? {
      var k :| 0 <= k < |w| && ParseBug(url, w[k], threads).Err?
               && ParseBugs(url, w, threads).error == ParseBug(url, w[k], threads).error
               && forall j | 0 <= j < k :: ParseBug(url, w[j], threads).Ok?;
      assert w[k] == rows[k + 1];
      assert forall j | 0 < j < k + 1 :: ParseBug(url, rows[j], threads).Ok?;
    }
  }

  /** getBugs returns at most one bug per window row: at most numBugs - 1,
      and never more than n - 1 for a positive limit n. Every bug has an id
      of at most MaxBugId and comes from a window row. */
  lemma BugsOfBounds(url: string, n: int, rows: seq<BugRow>, threads: int -> seq<CommentBlock>)
    requires BugsOf(url, n, rows, threads).Ok?
    ensures var bugs := BugsOf(url, n, rows, threads).value;
      var numBugs := NumBugs(|rows|, n);
      && |bugs| <= Max0(numBugs - 1)
      && (n > 0 ==> |bugs| <= n - 1)
      && forall b | b in bugs :: b.id <= MaxBugId &&
           exists i | 0 < i < numBugs :: ParseBug(url, rows[i], threads) == Ok(Some(b))
  {
    var numBugs := NumBugs(|rows|, n);
    var w := Window(rows, numBugs);
    var bs := ParseBugs(url, w, threads).value;
    ParseBugsProvenance(url, w, threads);
    ReverseMembers(bs);
    forall b | b in bs
      ensures exists i | 0 < i < numBugs :: ParseBug(url, rows[i], threads) == Ok(Some(b))
    {
      var j :| 0 <= j < |w| && ParseBug(url, w[j], threads) == Ok(Some(b));
      assert w[j] == rows[j + 1];
    }
  }

  /** When no window row is skipped, getBugs returns exactly one bug per
      window row: numBugs - 1 of them, so n - 1 for a limit 0 < n < the
      last index, and every row but the first and the last without one. */
  lemma BugsOfCount(url: string, n: int, rows: seq<BugRow>, threads: int -> seq<CommentBlock>)
    requires BugsOf(url, n, rows, threads).Ok?
    requires forall i | 0 < i < NumBugs(|rows|, n) :: ParseBug(url, rows[i], threads) != Ok(None)
    ensures |BugsOf(url, n, rows, threads).value| == Max0(NumBugs(|rows|, n) - 1)
    ensures 0 < n < |rows| - 1 ==> |BugsOf(url, n, rows, threads).value| == n - 1
    ensures !(0 < n < |rows| - 1) && |rows| >= 2 ==> |BugsOf(url, n, rows, threads).value| == |rows| - 2
  {
    var numBugs := NumBugs(|rows|, n);
    var w := Window(rows, numBugs);
    forall k | 0 <= k < |w| ensures ParseBug(url, w[k], threads) != Ok(None) {
      assert w[k] == rows[k + 1];
    }
    ParseBugsProvenance(url, w, threads);
  }

  function Max0(x: int): nat { if x < 0 then 0 else x }

  /** The rows of the window whose index is below `index`. */
  function Processed(rows: seq<BugRow>, numBugs: int, index: nat): seq<BugRow>
    requires numBugs < |rows| || numBugs <= 1
  {
    var w := Window(rows, numBugs);
    w[..if index <= 1 then 0 else Min(index - 1, |w|)]
  }

  /** Visiting a row inside the window extends the processed rows by that row. */
  lemma ProcessedStep(rows: seq<BugRow>, numBugs: int, index: nat)
    requires numBugs < |rows| || numBugs <= 1
    requires 0 < index < numBugs
    ensures Processed(rows, numBugs, index + 1) == Processed(rows, numBugs, index) + [rows[index]]
    ensures Processed(rows, numBugs, index + 1) == Window(rows, numBugs)[..index]
  {
    var w := Window(rows, numBugs);
    assert w[index - 1] == rows[index];
    assert w[..index] == w[..index - 1] + [w[index - 1]];
  }

  /** Visiting a row outside the window leaves the processed rows alone. */
  lemma ProcessedSkip(rows: seq<BugRow>, numBugs: int, index: nat)
    requires numBugs < |rows| || numBugs <= 1
    requires !(0 < index < numBugs)
    ensures Processed(rows, numBugs, index + 1) == Processed(rows, numBugs, index)
  {
  }

  /** One row's parse, added to the parse of the rows before it. */
  lemma ParseBugsSnoc(url: string, before: seq<BugRow>, row: BugRow, threads: int -> seq<CommentBlock>)
    requires ParseBugs(url, before, threads).Ok?
    ensures var done := ParseBugs(url, before, threads).value;
      ParseBugs(url, before + [row], threads) ==
        match ParseBug(url, row, threads)
        case Err(e) => Err(e)
        case Ok(None) => Ok(done)
        case Ok(Some(b)) => Ok(done + [b])
  {
    assert (before + [row])[..|before|] == before;
  }

  /** The body of getBugs' loop for one window row: the id, the cut-off at
      MaxBugId, the date and the comments, in that order. */
  method GetBug(url: string, row: BugRow, threads: int -> seq<CommentBlock>)
    returns (r: Result<Option<Bugs.Bug>, ExtractError>)
    ensures r == ParseBug(url, row, threads)
  {
    var bugId := ParseInt(row.id);
    if bugId.None? {
      return Err(BadInteger(row.id));
    }
    var id := bugId.value;
    if id > MaxBugId {
      return Ok(None);
    }
    var bugDate := Date(BugLayout, row.date);
    if !Parses(bugDate) {
      return Err(BadBugDate(id));
    }
    var comments := GetComments(url, id, threads(id));
    if comments.Err? {
      return Err(comments.error);
    }
    var bug := Bugs.Bug(id, row.description, row.priority, row.status, row.project,
                        row.category, RemoveChar(row.author, ':'), bugDate, row.assignee,
                        comments.value);
    return Ok(Some(bug));
  }

  /** One visit of a window row: a failure is the failure of the whole
      window, and a success extends the processed bugs by the row's bug, if any. */
  lemma GetBugsStep(url: string, rows: seq<BugRow>, numBugs: int, index: nat,
                    threads: int -> seq<CommentBlock>, done: seq<Bugs.Bug>)
    requires numBugs < |rows| || numBugs <= 1
    requires 0 < index < numBugs
    requires ParseBugs(url, Processed(rows, numBugs, index), threads) == Ok(done)
    ensures var parsed := ParseBug(url, rows[index], threads);
      && (parsed.Err? ==> ParseBugs(url, Window(rows, numBugs), threads) == Err(parsed.error))
      && (parsed == Ok(None) ==> ParseBugs(url, Processed(rows, numBugs, index + 1), threads) == Ok(done))
      && (parsed.Ok? && parsed.value.Some? ==>
            ParseBugs(url, Processed(rows, numBugs, index + 1), threads) == Ok(done + [parsed.value.value]))
  {
    var before := Processed(rows, numBugs, index);
    ProcessedStep(rows, numBugs, index);
    ParseBugsSnoc(url, before, rows[index], threads);
    var parsed := ParseBug(url, rows[index], threads);
    if parsed.Err? {
      ParseBugsErrPrefix(url, Window(rows, numBugs), threads, index);
    }
  }

  /** getBugs: every row of the table is visited; those at indices
      0 < i < numBugs are parsed, and each bug kept is prepended to the result. */
  method GetBugs(n: int, url: string, rows: seq<BugRow>, threads: int -> seq<CommentBlock>)
    returns (r: Result<seq<Bugs.Bug>, ExtractError>)
    ensures r == BugsOf(url, n, rows, threads)
  {
    var numBugs := |rows| - 1;
    if n > 0 && n < numBugs {
      numBugs := n;
    }
    assert numBugs == NumBugs(|rows|, n);
    var bugs: seq<Bugs.Bug> := [];
    ghost var done: seq<Bugs.Bug> := [];
    for index := 0 to |rows|
      invariant ParseBugs(url, Processed(rows, numBugs, index), threads) == Ok(done)
      invariant bugs == Reverse(done)
    {
      if index > 0 && index < numBugs {
        GetBugsStep(url, rows, numBugs, index, threads, done);
        var parsed := GetBug(url, rows[index], threads);
        if parsed.Err? {
          return Err(parsed.error);
        }
        if parsed.value.Some? {
          var bug := parsed.value.value;
          ReverseSnoc(done, bug);
          bugs := [bug] + bugs;
          done := done + [bug];
        }
      } else {
        ProcessedSkip(rows, numBugs, index);
      }
    }
    assert Processed(rows, numBugs, |rows|) == Window(rows, numBugs);
    return Ok(bugs);
  }
}
