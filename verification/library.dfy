/** The upload card of the library page: which file is selected, and whether Upload may be clicked. */
module Library {
  import opened Results

  /** A selected file, as far as the page looks at it: its name and its MIME type. */
  datatype File = File(name: string, mimeType: string)

  /** The page state: the selected HTML file, if any. */
  datatype LibraryState = LibraryState(htmlFile: Option<File>)

  /** The only MIME type the upload handler accepts. */
  const HtmlType: string := "text/html"

  /** The state on mount: nothing selected. */
  function Initial(): (s: LibraryState)
    ensures s.htmlFile.None?
    ensures !UploadEnabled(s)
  {
    LibraryState(None)
  }

  /** The Upload button is enabled exactly when a file is selected: a file object is truthy, null is not. */
  predicate UploadEnabled(s: LibraryState)
    ensures UploadEnabled(s) <==> s != LibraryState(None)
  {
    s.htmlFile.Some?
  }

  /** The file the handler looks at: the first of the input's file list, when there is a list and it is not empty. */
  function FirstFile(files: Option<seq<File>>): Option<File>
  {
    if files.Some? && |files.value| > 0 then Some(files.value[0]) else None
  }

  /**
   * `handleFileUpload`: the first chosen file replaces the selection when its type is exactly
   * `text/html`; an empty choice, a missing list or any other type changes nothing.
   */
  function HandleFileUpload(s: LibraryState, files: Option<seq<File>>): (r: LibraryState)
    ensures files.Some? && |files.value| > 0 && files.value[0].mimeType == HtmlType ==> r.htmlFile == Some(files.value[0])
    ensures !(files.Some? && |files.value| > 0 && files.value[0].mimeType == HtmlType) ==> r == s
    ensures UploadEnabled(s) ==> UploadEnabled(r)
  {
    match FirstFile(files)
    case Some(file) => if file.mimeType == HtmlType then LibraryState(Some(file)) else s
    case None => s
  }

  /** The files chosen after the first one have no say in the outcome. */
  lemma OnlyFirstFileCounts(s: LibraryState, first: File, others: seq<File>, others': seq<File>)
    ensures HandleFileUpload(s, Some([first] + others)) == HandleFileUpload(s, Some([first] + others'))
  {
  }

  /** The state after a sequence of file choices: the earlier selection, or a file of type `text/html`. */
  function Run(s: LibraryState, choices: seq<Option<seq<File>>>): (r: LibraryState)
    ensures r == s || (r.htmlFile.Some? && r.htmlFile.value.mimeType == HtmlType)
    decreases |choices|
  {
    if |choices| == 0 then s else Run(HandleFileUpload(s, choices[0]), choices[1..])
  }

  /** The file a choice would select, if it would select one. */
  function Accepted(files: Option<seq<File>>): Option<File>
  {
    match FirstFile(files)
    case Some(file) => if file.mimeType == HtmlType then Some(file) else None
    case None => None
  }

  /** The last file any of the choices would select, scanning from the end. */
  function LastAccepted(choices: seq<Option<seq<File>>>): (r: Option<File>)
    ensures r.Some? ==> r.value.mimeType == HtmlType
  {
    if |choices| == 0 then None
    else match Accepted(choices[|choices| - 1])
      case Some(f) => Some(f)
      case None => LastAccepted(choices[..|choices| - 1])
  }

  /**
   * After any sequence of choices the selection is the last accepted file, or the earlier selection
   * when no choice was accepted.
   */
  lemma {:induction false} RunSelectsLastAccepted(s: LibraryState, choices: seq<Option<seq<File>>>)
    ensures Run(s, choices).htmlFile == match LastAccepted(choices) case Some(f) => Some(f) case None => s.htmlFile
    decreases |choices|
  {
    if |choices| > 0 {
      var n := |choices|;
      var init, last := choices[..n - 1], choices[n - 1];
      RunSplit(s, init, last);
      assert choices == init + [last];
      RunSelectsLastAccepted(s, init);
    }
  }

  /** Running choices then one more is running the one more from where the choices ended. */
  lemma {:induction false} RunSplit(s: LibraryState, init: seq<Option<seq<File>>>, last: Option<seq<File>>)
    ensures Run(s, init + [last]) == HandleFileUpload(Run(s, init), last)
    decreases |init|
  {
    if |init| == 0 {
      assert init + [last] == [last];
    } else {
      assert (init + [last])[1..] == init[1..] + [last];
      RunSplit(HandleFileUpload(s, init[0]), init[1..], last);
    }
  }

  /**
   * From the initial state, Upload is enabled after a sequence of choices exactly when one of them was
   * accepted, and the selected file is then always of type `text/html`.
   */
  lemma UploadEnabledIffAccepted(choices: seq<Option<seq<File>>>)
    ensures UploadEnabled(Run(Initial(), choices)) <==> LastAccepted(choices).Some?
    ensures UploadEnabled(Run(Initial(), choices)) ==> Run(Initial(), choices).htmlFile.value.mimeType == HtmlType
  {
    RunSelectsLastAccepted(Initial(), choices);
  }

  /** Once a file is selected, no sequence of choices clears the selection again. */
  lemma SelectionPersists(s: LibraryState, choices: seq<Option<seq<File>>>)
    requires UploadEnabled(s)
    ensures UploadEnabled(Run(s, choices))
  {
    RunSelectsLastAccepted(s, choices);
  }
}
