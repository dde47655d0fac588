# TransferIssues in Dafny

TransferIssues moves the bug reports of the APSIM legacy bug tracker to GitHub issues. It scrapes the bug list and each bug's comment thread, and posts every bug as an issue with its comments. Attachments are moved to www.apsim.info. The tool also runs maintenance passes over the issues already moved: fixing links, stripping tabs, and closing issues whose legacy bug is closed.

This project models the data logic between the HTML scraping and the GitHub and FTP calls. It proves what that logic promises.

- **Records and renderers** (`attachment.go`, `comment.go`, `bug.go`).
  - `Attachment`, `Comment` and `Bug` are datatypes.
  - `ToString` of each is a function, with lemmas about its layout.
  - `Bug.ToLongString` is a loop method proved against a function over the comment sections.
  - The file name `Download` uses, and `downloadFile`'s result, are functions. The three I/O steps are given as their outcomes.
  - The date is a layout tag and the text handed to `time.Parse`. Success of the parse is the uninterpreted `Dates.Parses`. What `%v` prints is the uninterpreted `Dates.Render`.
- **Extraction** (`getComments`, `getBugs` and their helpers in `TransferIssues.go`).
  - A comment element is the handful of texts the tool reads from it. A bug row is its nine cell texts.
  - A page fetch is a function from a bug id to the comment elements of that bug's thread.
  - Every way the tool aborts (slice index panic, `log.Fatal` on a bad integer or date) is an error value.
  - Both loops are methods proved equal to specification functions. Those functions keep the tool's order: items are prepended, so lists come out in reverse.
- **Matching** (`getLegacyId` and the three first-match lookups).
  - The two regular expressions `Legacy Bug ID: (\d+)` and `Bug #(\d+)` are a leftmost-match search plus a maximal digit run.
  - The central result is a round trip: the issue body `postBug` posts for a bug reads back through `getLegacyId` as the bug's id. It holds for a non-negative id when the author, the title and the rendered date hold no `Legacy Bug ID: ` followed by a digit.
- **Migration** (the data logic of `postBug`, `closeIssues`, `fixFormatting`, `getGithubIssues`, and the link `fixLinksv2` writes).
  - The attachment-url rewrite of `postBug` is a method over an array of comments, changed in place.
  - `closeIssues` and `fixFormatting` are methods whose results are the issues closed and the updates sent.
  - `getGithubIssues` is a loop over the pages the server would serve.

The model follows the code, including these behaviours:

- The issue body `postBug` posts is `Bug.ToString` (which opens with `Bug #<id>`), not the long rendering.
- `getComments` and `getBugs` prepend and never reverse, so both return items in the reverse of page order.
- `numBugs` is the index of the last row, and only rows `0 < i < numBugs` are read. So the last row is never read, and a limit `n` yields at most `n - 1` bugs.
- Bugs with an id above 2000 are dropped.
- Only comments after the first are rewritten and posted.
- A comment header needs at least five words, and six when the date has a time. Otherwise the indexing at `n - 4` or `n - 5` panics.
- When the date of a five-word header fails to parse, the diagnostic printed before `log.Fatal` reads word `n - 5`, which does not exist, so that comment ends in an index panic rather than the date error.
- `closeIssues` panics at the first issue whose legacy bug is missing from the bug list, after the issues before it have been handled.

## Model

| member | source | states |
|---|---|---|
| Seqs.Reverse | TransferIssues.go:215 | Element i of the reversed list is element `len - 1 - i` of the original, and the length is kept. |
| Seqs.ReverseSnoc | TransferIssues.go:215 | Prepending the next item to the reversed prefix gives the reverse of the longer prefix. |
| Seqs.ReverseMembers | TransferIssues.go:271 | Reversal keeps exactly the same items. |
| Text.IntToDecimal | bug.go:25 | `%d` prints a non-empty digit string for a non-negative number, and a minus sign followed by digits for a negative one. |
| Text.ParseDecimalOfNatToDecimal | bug.go:25 | Reading back the digits `%d` prints for a natural number gives the number. |
| Text.ParseInt | TransferIssues.go:52-58 | parseInt succeeds exactly on an optional sign followed by at least one decimal digit. |
| Text.ParseIntOfIntToDecimal | TransferIssues.go:52-58 | parseInt reads back every integer `%d` prints. |
| Text.ReplaceChar | attachment.go:55 | Replacing a character keeps the length, turns every occurrence into the replacement, and keeps every other character in place. |
| Text.ReplaceCharRemoves | attachment.go:55 | After the replacement the replaced character no longer occurs. |
| Text.ReplaceCharIdempotent | attachment.go:55 | A second replacement changes nothing. |
| Text.RemoveChar | TransferIssues.go:266 | Deleting a character leaves none of it, shortens the string by its count, and keeps the count of every other character. The order of what is kept is stated by Text.RemoveCharAppend. |
| Text.RemoveCharChanges | TransferIssues.go:720-721 | Deleting changes the string exactly when the character occurs in it. |
| Text.RemoveCharAppend | TransferIssues.go:266 | Deleting from a concatenation is deleting from each part, so the characters kept stay in their order. |
| Text.RemoveCharOne | TransferIssues.go:266 | A single character is dropped when it is the one deleted and kept otherwise. |
| Text.ToLower | TransferIssues.go:698 | Lower-casing keeps the length, maps `A`-`Z` to `a`-`z` and leaves every other character alone. |
| Text.Split | TransferIssues.go:168 | strings.Split gives at least one piece, and no piece holds the separator. |
| Text.JoinSplit | TransferIssues.go:168 | Joining the pieces of a split with the separator gives the string back. |
| Text.SplitJoin | TransferIssues.go:168 | Separator-free pieces joined by the separator split back into the same pieces. |
| Text.SplitCons | TransferIssues.go:168 | A separator-free first piece followed by the separator is the first piece of the split, and the rest splits as before. |
| Text.SplitLastPiece | attachment.go:21-22 | Text that follows the last separator is the last piece of the split. |
| Text.TrimFacts | TransferIssues.go:193-195 | strings.Trim keeps a contiguous middle part that neither starts nor ends with the cut character, and everything cut on either side is that character. |
| Text.TrimNoop | TransferIssues.go:391 | A string that neither starts nor ends with the cut character is left alone. |
| Attachments.IsPresent | attachment.go:12-16 | An attachment is present exactly when its name, size or url is non-zero. |
| Attachments.ToString | attachment.go:18-24 | The markdown link to the url, a newline and the size line; its layout is stated by Attachments.ToStringSizeLine and Attachments.SizeLineReadsBack. |
| Attachments.SizeLineReadsBack | attachment.go:22 | The size line has no newline, starts with `Size: `, and parseInt reads the size back from the rest. |
| Attachments.ToStringSizeLine | attachment.go:18-24 | The rendering is the markdown link, a newline, then the size line, which is the last line. |
| Attachments.CleanName | attachment.go:55 | The clean file name has the name's length and no space, and agrees with the name at every non-space position (spaces become underscores). |
| Attachments.CleanNameIdempotent | attachment.go:55 | Cleaning a clean name changes nothing. |
| Attachments.DownloadFile | attachment.go:29-50 | downloadFile succeeds exactly when creating, fetching and copying all succeed. On success it returns the path it was given. On failure it returns `""` with the first step's error. |
| Attachments.Download | attachment.go:54-56 | Download saves to the directory joined with the clean name, and succeeds exactly when all three steps do. |
| Comments.ToStringLayout | comment.go:17-27 | A rendered comment starts with the author line, the date line and a blank line. The rest is the text when there is no attachment, and the attachment's rendering otherwise. |
| Comments.ToString | comment.go:17-27 | The author line, the date line, a blank line, then the attachment or the text; stated by Comments.ToStringLayout and the lemmas after it. |
| Comments.ToStringIgnoresId | comment.go:17-27 | The comment's id is never printed. |
| Comments.ToStringIgnoresTextWithAttachment | comment.go:21-25 | With an attachment, the comment's text does not affect the rendering. |
| Comments.ToStringKeepsTextWithoutAttachment | comment.go:21-23 | Without an attachment, different texts give different renderings. |
| Bugs.ToString | bug.go:22-30 | The short rendering starts with `Bug #`, followed by a digit for a non-negative id. |
| Bugs.ToStringIgnoresOtherFields | bug.go:22-30 | The short rendering depends only on the id, author, date and description. |
| Bugs.SectionsOfAppend | bug.go:36-43 | Appending a comment extends the sections by exactly that comment's section at the next position. |
| Bugs.SectionsOfFirstComment | bug.go:37-42 | The first comment contributes its raw text alone. The later ones keep their numbered positions. |
| Bugs.ToLongString | bug.go:32-45 | The long rendering is the short one followed by every comment's section in list order, and equals the short one when there are no comments. |
| Extraction.Min | TransferIssues.go:34-39 | min is at most both arguments and equal to one of them. |
| Extraction.Contains | TransferIssues.go:61-70 | contains holds exactly when some element of the list equals some value. |
| Extraction.StripNonBreakingSpaces | TransferIssues.go:74-81 | Stripping keeps the length, turns every U+00A0 into a space, leaves every other character alone, and leaves no U+00A0. |
| Extraction.StripNonBreakingSpacesIdempotent | TransferIssues.go:74-81 | Stripping twice is stripping once. |
| Extraction.Listed | TransferIssues.go:129-134 | The scan finds the id exactly when the list holds it. |
| Extraction.IsBlackListed | TransferIssues.go:29 | An id is blacklisted exactly when it is one of the fifty listed ids. |
| Extraction.MetadataTokens | TransferIssues.go:163-168 | The header splits into at least one word, and no word holds a space or a U+00A0. |
| Extraction.ParseAttachment | TransferIssues.go:171-182 | The attachment parses exactly when the info text has a second word that parseInt accepts. Its size is that number, its name the name text, and its url the root url followed by the href. |
| Extraction.CommentDate | TransferIssues.go:190-196 | With n the last word index: when word n-4 holds a colon, the long layout applies to words n-5 and n-4 and comma-trimmed word n-3. Otherwise the date-only layout applies to comma-trimmed word n-3. |
| Extraction.ParseComment | TransferIssues.go:158-217 | One comment block as getComments' callback reads it, or the way it aborts; a block parses exactly when it meets none of the aborts. Stated by Extraction.ParseCommentFacts and Extraction.ParseCommentErrors. |
| Extraction.ParseCommentFacts | TransferIssues.go:163-210 | A parsed comment takes its id from word 1, its author from word 4, a date that parses, and the block's text. It has the parsed attachment when word 0 is `file` and none otherwise. |
| Extraction.ParseCommentErrors | TransferIssues.go:172-205 | Every abort, in the order met: a bad attachment size, a header too short to index, a date that does not parse (an index error instead for a five-word header, whose diagnostic at line 200 reads word n - 5), then a bad id. A block that meets none of them parses. |
| Extraction.ParseCommentOfHeader | TransferIssues.go:163-210 | A header built from words, with `%d` of an id in word 1, parses back into a comment with that id, author and date. |
| Extraction.ParseAll | TransferIssues.go:158-217 | Parsing every item in order gives, on success, one result per item. |
| Extraction.ParseAllOk | TransferIssues.go:158-217 | All items parse exactly when the whole parse succeeds, and then result k is the parse of item k. |
| Extraction.ParseAllFirstError | TransferIssues.go:197-201 | A failed parse fails with the error of some item all of whose predecessors parse. |
| Extraction.ParseAllErrPrefix | TransferIssues.go:197-201 | A failure within a prefix is the failure of the whole list. |
| Extraction.ParseComments | TransferIssues.go:158-217 | The comments of a thread, block by block, or the first block's failure; stated by Extraction.ParseCommentsFacts. |
| Extraction.ParseCommentsFacts | TransferIssues.go:158-217 | A thread parses exactly when every block does, and then gives, at each position, that block's comment. When it fails, it fails with the error of the first failing block. |
| Extraction.ParseCommentsErrPrefix | TransferIssues.go:197-201 | A failure on an earlier block is the failure of the whole thread. |
| Extraction.UnlistedFacts | TransferIssues.go:212-216 | The filter keeps exactly the comments whose id is not blacklisted: none blacklisted, all from the input, and every unlisted one kept. |
| Extraction.UnlistedAppend | TransferIssues.go:212-216 | Filtering a concatenation concatenates the filtered parts, so the comments kept stay in page order (and come out reversed from getComments). |
| Extraction.CommentsOf | TransferIssues.go:153-219 | getComments' result: the unlisted comments of the thread in reverse page order, or the first failure; stated by Extraction.CommentsOfFiltersBlacklist and Extraction.GetComments. |
| Extraction.CommentsOfFiltersBlacklist | TransferIssues.go:212-216 | getComments never returns a blacklisted comment, and returns every other parsed comment. |
| Extraction.GetComments | TransferIssues.go:153-219 | getComments returns the parsed, unlisted comments in reverse page order, or the first block's error. |
| Extraction.NumBugs | TransferIssues.go:236-240 | numBugs is the last row index, replaced by n when 0 < n < that index. |
| Extraction.Window | TransferIssues.go:247 | The rows processed are exactly those at indices 0 < i < numBugs. |
| Extraction.ParseBug | TransferIssues.go:248-270 | One bug row as getBugs' callback reads it: skipped above id 2000, or the bug, or the way it aborts; stated by Extraction.ParseBugFacts and Extraction.ParseBugErrors. |
| Extraction.ParseBugFacts | TransferIssues.go:248-270 | A row is skipped exactly when its id parses to more than 2000. A parsed bug has the row's id, text fields, author without colons, and bug-layout date, plus the comments getComments gives for its id. |
| Extraction.ParseBugErrors | TransferIssues.go:248-269 | A row whose id parseInt rejects aborts with that error; otherwise, for an id of at most 2000, a date that does not parse aborts with the date error, then a failing comment thread aborts with its error; a row that meets none of these gives its bug. |
| Extraction.ParseKept | TransferIssues.go:242-272 | The results kept from a run of items in order: at most one per item, a skipped item giving none, the first failure aborting. |
| Extraction.ParseKeptFacts | TransferIssues.go:242-272 | The run is kept exactly when every item parses; when it fails, it fails with the error of the first item that fails. |
| Extraction.ParseBugs | TransferIssues.go:242-272 | The bugs of a run of rows in table order, or the first failure; stated by Extraction.ParseBugsFacts and Extraction.ParseBugsProvenance. |
| Extraction.ParseBugsFacts | TransferIssues.go:242-272 | A run of rows parses exactly when every row does; when it fails, it fails with the error of the first row that fails. |
| Extraction.ParseBugsProvenance | TransferIssues.go:242-272 | There is at most one bug per row, each from one of the rows with id at most 2000, and exactly one per row when no row is skipped. |
| Extraction.BugsOf | TransferIssues.go:236-271 | getBugs' result: the bugs of the window rows in reverse row order, or the first failure; stated by Extraction.BugsOfFacts, Extraction.BugsOfBounds, Extraction.BugsOfCount and Extraction.GetBugs. |
| Extraction.BugsOfFacts | TransferIssues.go:236-271 | getBugs succeeds exactly when every window row (0 < i < numBugs) parses; when one does not, it fails with the error of the first window row that fails. |
| Extraction.BugsOfBounds | TransferIssues.go:236-271 | getBugs returns at most numBugs - 1 bugs (at most n - 1 for a positive n), each parsed from a window row. |
| Extraction.BugsOfCount | TransferIssues.go:236-271 | When no window row is skipped, getBugs returns exactly numBugs - 1 bugs: n - 1 under a limit, and all rows but the first and last otherwise. |
| Extraction.GetBug | TransferIssues.go:248-270 | One row's id, cut-off, date and comments are read in the tool's order, and the result is the row's parse. |
| Extraction.GetBugs | TransferIssues.go:227-278 | getBugs returns what Extraction.BugsOf gives: the bugs of the window rows in reverse row order, or the error of the first window row that fails (Extraction.BugsOfFacts). |
| Matching.FindMarker | TransferIssues.go:613-614 | The search gives -1 or a position where the marker is followed by a digit. |
| Matching.FindMarkerFacts | TransferIssues.go:613-614 | The search misses no match: no match lies before its result, and none at all when it gives -1. |
| Matching.CaptureNone | TransferIssues.go:614-615 | The pattern captures a number exactly when it matches somewhere. |
| Matching.GetLegacyId | TransferIssues.go:611-636 | The `Legacy Bug ID: ` capture, else the `Bug #` capture, else -1; stated by Matching.GetLegacyIdCases. |
| Matching.GetLegacyIdCases | TransferIssues.go:611-636 | getLegacyId is -1 exactly when neither pattern matches. Otherwise it is the `Legacy Bug ID: ` capture whenever that pattern matches, whatever `Bug #` markers the body holds, and the `Bug #` capture otherwise. |
| Matching.BodyHasNoLegacyMarker | bug.go:22-30 | Bug.ToString holds no `Legacy Bug ID: ` match unless the author, date or title brings one. |
| Matching.BodyCapturesId | bug.go:25 | The `Bug #(\d+)` pattern captures the id from Bug.ToString. |
| Matching.GetLegacyIdOfBugBody | TransferIssues.go:611-636 | The body posted for a bug reads back through getLegacyId as the bug's id, when its fields hold no `Legacy Bug ID: ` match. |
| Matching.GetBugFromId | TransferIssues.go:641-648 | getBugFromId returns a bug with the id, and it is the first such bug in list order. |
| Matching.GetBugFromTitle | TransferIssues.go:653-660 | getBugFromTitle returns a bug with the title, and it is the first such bug in list order. |
| Matching.GetCommentWithContent | TransferIssues.go:599-609 | getCommentWithContent returns a comment whose text contains the content, and it is the first such comment in list order. |
| Matching.LegacyBugOf | TransferIssues.go:690-697 | An issue's legacy bug comes from the list. It has the id the body names, or the issue's title when the body names none. |
| Migration.HostedUrl | TransferIssues.go:390-391 | The new url is the host, the attachment directory, the comment's id and the clean file name, when the host has no outer slashes. |
| Migration.Rehosted | TransferIssues.go:386-391 | A comment after the first with an attachment gets the hosted url, and nothing else changes; stated by Migration.RehostedChanges. |
| Migration.RehostedChanges | TransferIssues.go:386-391 | Only a comment after the first with an attachment changes, and only its attachment url, which becomes the hosted url. |
| Migration.RehostedPostsLink | TransferIssues.go:389-406 | A rewritten comment still has an attachment, so it is posted as its header and the link to the new location. |
| Migration.PostComment | TransferIssues.go:387-406 | One turn rewrites comment i in place, leaves every other comment alone, and returns comment i's rendering. |
| Migration.PostComments | TransferIssues.go:386-424 | Every comment ends as its rewrite. One body is posted for each comment after the first, in order, rendered after its rewrite. |
| Migration.PostBug | TransferIssues.go:358-428 | The issue has the description as title and Bug.ToString as body. The comments are rewritten and posted, and the issue is closed when the bug is. |
| Migration.ShouldClose | TransferIssues.go:698 | The legacy bug is closed and the issue's lower-cased state is not `closed`; its cases are stated by Migration.ShouldCloseCases. |
| Migration.ShouldCloseCases | TransferIssues.go:698 | An issue whose state lower-cases to `closed` (among them `closed`, `Closed` and `CLOSED`) is never closed again. An open issue of a closed bug always is. An issue of an open bug never is. |
| Migration.NumbersWhereSound | TransferIssues.go:690-704 | At most one number is selected per issue, and each belongs to an issue the test holds for. |
| Migration.NumbersWhereAll | TransferIssues.go:690-704 | When the test holds for every issue, every issue's number is selected, in order. |
| Migration.ClosePlanSound | TransferIssues.go:690-704 | Every issue closed is resolvable, has a closed legacy bug, and is not closed already. |
| Migration.ClosePlanComplete | TransferIssues.go:690-704 | When every issue should be closed, every issue is closed, in order. |
| Migration.ClosePlanStep | TransferIssues.go:698-703 | One more issue adds its number to the issues closed exactly when the decision holds. |
| Migration.FirstFailing | TransferIssues.go:690-697 | The position of the first item failing the test, or the length: every item before it passes, and the item there fails. |
| Migration.FirstUnresolvable | TransferIssues.go:690-697 | The issues closeIssues gets through: every issue before this position has its legacy bug in the list, and the issue at it does not. |
| Migration.FirstUnresolvableStep | TransferIssues.go:690-697 | The issue at the loop index is either handled too or is where closeIssues stops. |
| Migration.FindLegacyBug | TransferIssues.go:691-697 | The lookup fails exactly when the issue's legacy bug is not in the list, and otherwise gives that legacy bug. |
| Migration.CloseDecision | TransferIssues.go:691-698 | The decision is missing exactly when the lookup fails, and otherwise is whether the issue is closed. |
| Migration.CloseIssues | TransferIssues.go:685-705 | closeIssues handles the issues up to the first one whose legacy bug is not in the list, where the lookup panics, and closes exactly the issues of the close plan of those it handled, in order. |
| Migration.StripTabs | TransferIssues.go:721 | The new body has no tab, is shorter by the number of tabs, and keeps the count of every other character. The order of what is kept is stated by Migration.StripTabsKeepsOrder. |
| Migration.StripTabsFacts | TransferIssues.go:720-721 | Stripping a stripped body changes nothing, and a body changes exactly when it has a tab. |
| Migration.StripTabsKeepsOrder | TransferIssues.go:721 | Stripping tabs from a concatenation is stripping each part, and a single character survives exactly when it is not a tab, so the other characters keep their order. |
| Migration.FormattingEditsTabFree | TransferIssues.go:717-765 | Every update fixFormatting sends carries a tab-free body. |
| Migration.CommentEditsEmpty | TransferIssues.go:747-764 | No comment update is sent exactly when no comment body has a tab. |
| Migration.SecondPassEditsNothing | TransferIssues.go:708-766 | After the updates are applied, a second run sends none. |
| Migration.FixCommentFormatting | TransferIssues.go:747-764 | The inner loop sends one update per comment with a tab, in order. |
| Migration.FixFormatting | TransferIssues.go:708-766 | fixFormatting sends, issue by issue, the body update when the body has a tab, then the updates of its comments. |
| Migration.StopPage | TransferIssues.go:462-464 | The loop stops at the last page or at the first page after which the limit is reached, and never before. |
| Migration.GithubIssuesBounds | TransferIssues.go:446-464 | The result starts with the whole first page and is a prefix of all issues. It is all of them, or it reached the limit, where a negative max becomes the first issue's number. |
| Migration.GetGithubIssues | TransferIssues.go:430-474 | getGithubIssues returns the pages up to the stop page, appended in order. |
| Migration.FixedLink | TransferIssues.go:571-572 | The link target fixLinksv2 composes from the comment's id and the name with spaces made underscores; stated by Migration.FixedLinkOwnComment and Migration.FixedLinkTargetsHostedUrl. |
| Migration.FixedLinkOwnComment | TransferIssues.go:571-572 | The link written with a comment's own id points at the url postBug gave that comment's attachment, when the clean file name is the name with spaces made underscores. |
| Migration.FixedLinkTargetsHostedUrl | TransferIssues.go:569-572 | The link fixLinksv2 writes, through the comment getCommentWithContent picks for the attachment's name, points at the url postBug gave the attachment, when the picked comment has the id of the comment that carries the attachment and the clean file name is the name with spaces made underscores. |

## Left out

- Network and HTML access are left out: the cookie handshake of `loadBugList`, the page fetches, and the goquery selectors. The texts they yield are inputs.
- All octokit calls are left out: issue and comment creation, updates, and listing. Their abuse-detection retry loops, the rate-limit sleeps and `randomSleep` go too. The calls are remote effects and wall-clock waits; the model states what would be sent.
- FTP upload, local files and credentials are left out: `uploadFileFtp`, `CreateDirIfNotExist`, `getSecret` and `getCredentials`. So is the `reupload` branch of `postBug`, which downloads and re-uploads the file and then overwrites the url again.
- Attachments.DownloadFile: the three I/O steps of `downloadFile` are given as their outcomes. Closing the file and the response body is not modelled.
- The progress percentages are left out. They are floating point and only printed.
- `main` and its command-line parsing are left out.
- `fixLinks` is left out, and so is the regex rewrite of `fixLinksv2`. Only the link target `fixLinksv2` composes is modelled (Migration.FixedLink).
- `time.Parse` and `%v` of a `time.Time` are not modelled. Whether a date parses and how it prints are uninterpreted.
- Text.ParseInt: parseInt is `strconv.ParseInt` with base 0. The model reads only decimal (with an optional sign). It leaves out the `0x`, `0o`, `0b` and leading-zero octal prefixes, underscores, and the int64 range check.
- Matching.GetLegacyIdCases: `strconv.Atoi` of the captured digits is read as an unbounded natural number. The overflow error of a digit run too long for an int is not modelled.
- Text.ToLower: only ASCII letters are lower-cased. `strings.ToLower` also maps other Unicode letters.
- Int64 fields (ids and sizes) are unbounded integers. The tool never does arithmetic on them.
- `path.Join` is uninterpreted, so its lexical clean-up of the path is not modelled.
- `Bug.IsClosed` and `Attachment.GetCleanFileName` are uninterpreted, because their bodies are not among the modelled files.
- Migration.FixedLinkTargetsHostedUrl: it assumes that GetCleanFileName is the name with spaces made underscores, and that the comment getCommentWithContent picks (the first whose text contains the attachment's name) has the id of the comment carrying the attachment. When an earlier comment mentions the name, fixLinksv2 writes a link into that comment's directory, which is not where postBug put the file; the model states nothing about that link.
- `strings.TrimSpace` of the comment text and header is not modelled. The comment block holds the trimmed texts.
- `postBug` hard-codes the host and directory; the model takes them as a Site parameter, with the tool's values in Migration.Apsim.
- `fixFormatting`, `closeIssues` and `getGithubIssues` each fetch their data themselves. The model takes the issues, the comment threads, the bug list and the pages as inputs.
