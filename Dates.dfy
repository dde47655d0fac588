/** Timestamps of bugs and comments. The tool hands a layout and a piece of
    text to time.Parse and later prints the result with `%v`; neither the
    calendar arithmetic nor the printing is modelled. A date is kept as the
    layout and the text that were handed to the parser, whether the parse
    succeeds is the uninterpreted predicate Parses, and what `%v` prints is
    the uninterpreted function Render. */
module Dates {

  /** The three layouts of TransferIssues.go. */
  datatype Layout =
    | BugLayout           // dates in the bug list, "1/2/2006 3:4:5 PM"
    | CommentLayout       // dates in comment headers, "2006-1-2 3:4 PM"
    | ShortCommentLayout  // the one comment whose header has no time, "2006-1-2"

  datatype Date = Date(layout: Layout, text: string)

  /** Whether time.Parse accepts the text under the layout. */
  const Parses: Date -> bool

  /** What `%v` prints for the parsed time. */
  const Render: Date -> string
}
