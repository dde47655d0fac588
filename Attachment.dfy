/** attachment.go: the file attached to a comment, how it is printed into a
    posted comment, and the local file name `Download` stores it under. */
module Attachments {
  import opened Wrappers
  import opened Text

  /** `size` is an int64 in the source; the model does not bound it. */
  datatype Attachment = Attachment(name: string, size: int, url: string)

  /** The zero value `Attachment{}`, which stands for "no attachment". */
  const NoAttachment := Attachment("", 0, "")

  /** The presence test `a != (Attachment{})`: any non-zero field marks an attachment. */
  function IsPresent(a: Attachment): (present: bool)
    ensures present <==> a.name != "" || a.size != 0 || a.url != ""
  {
    a != NoAttachment
  }

  const SizePrefix := "Size: "

  /** The markdown link to the file. */
  function Link(a: Attachment): string
  {
    "[" + a.name + "](" + a.url + ")"
  }

  /** The size line, which has no line break of its own. */
  function SizeLine(a: Attachment): string
  {
    SizePrefix + IntToDecimal(a.size)
  }

  /** Attachment.ToString: the link on a line of its own, then the size. */
  function ToString(a: Attachment): string
  {
    Link(a) + "\n" + SizeLine(a)
  }

  /** The size line holds no newline and reads back, with parseInt, as the size. */
  lemma SizeLineReadsBack(a: Attachment)
    ensures var line := SizeLine(a);
      && '\n' !in line
      && |line| > |SizePrefix| && line[..|SizePrefix|] == SizePrefix
      && ParseInt(line[|SizePrefix|..]) == Some(a.size)
  {
    var d := IntToDecimal(a.size);
    var line := SizeLine(a);
    assert forall k | 0 <= k < |d| :: d[k] == '-' || IsDigit(d[k]);
    assert forall k | 0 <= k < |line| :: line[k] == if k < |SizePrefix| then SizePrefix[k] else d[k - |SizePrefix|];
    assert line[|SizePrefix|..] == d;
    ParseIntOfIntToDecimal(a.size);
  }

  /** The rendering is the link line followed by the size line, and its
      last line is the size line (which SizeLineReadsBack reads back). */
  lemma ToStringSizeLine(a: Attachment)
    ensures var s := ToString(a);
      var lines := Split(s, '\n');
      && |Link(a)| < |s| && s[..|Link(a)|] == Link(a) && s[|Link(a)|] == '\n'
      && lines[|lines| - 1] == SizeLine(a)
  {
    var link := Link(a);
    var line := SizeLine(a);
    assert ToString(a) == link + ['\n'] + line;
    SizeLineReadsBack(a);
    SplitLastPiece(link, '\n', line);
  }

  /** The file name used by Download: every space replaced by an underscore. */
  function CleanName(name: string): (clean: string)
    ensures |clean| == |name|
    ensures ' ' !in clean
    ensures forall i | 0 <= i < |name| :: clean[i] == if name[i] == ' ' then '_' else name[i]
  {
    ReplaceCharRemoves(name, ' ', '_');
    ReplaceChar(name, ' ', '_')
  }

  /** Cleaning an already clean name changes nothing. */
  lemma CleanNameIdempotent(name: string)
    ensures CleanName(CleanName(name)) == CleanName(name)
  {
    var once := CleanName(name);
    assert forall i | 0 <= i < |once| :: CleanName(once)[i] == once[i];
  }

  /** path.Join; its lexical clean-up of the path is not modelled. */
  const PathJoin: (string, string) -> string

  /** Attachment.GetCleanFileName, which the rewrite in postBug calls; its body
      is not among the source files of this model. */
  const GetCleanFileName: Attachment -> string

  /** What downloadFile returns: the path, or "" together with an error. */
  datatype DownloadResult = DownloadResult(path: string, err: Option<string>)

  /** downloadFile(path, url) with its three I/O steps (create the local file,
      GET the url, copy the body) given as their outcomes: None for success,
      Some(message) for the error the step returned. */
  function DownloadFile(path: string, createErr: Option<string>, getErr: Option<string>,
                        copyErr: Option<string>): (r: DownloadResult)
    ensures r.err.None? <==> createErr.None? && getErr.None? && copyErr.None?
    ensures r.err.None? ==> r.path == path
    ensures r.err.Some? ==> r.path == ""
    ensures createErr.Some? ==> r.err == createErr
    ensures createErr.None? && getErr.Some? ==> r.err == getErr
    ensures createErr.None? && getErr.None? && copyErr.Some? ==> r.err == copyErr
  {
    if createErr.Some? then DownloadResult("", createErr)
    else if getErr.Some? then DownloadResult("", getErr)
    else if copyErr.Some? then DownloadResult("", copyErr)
    else DownloadResult(path, None)
  }

  /** Attachment.Download(dir): the file goes to `dir` joined with the clean name. */
  function Download(a: Attachment, dir: string, createErr: Option<string>, getErr: Option<string>,
                    copyErr: Option<string>): (r: DownloadResult)
    ensures r.err.None? <==> createErr.None? && getErr.None? && copyErr.None?
    ensures r.err.None? ==> r.path == PathJoin(dir, CleanName(a.name))
    ensures r.err.Some? ==> r.path == ""
  {
    DownloadFile(PathJoin(dir, CleanName(a.name)), createErr, getErr, copyErr)
  }
}
