/**
 * app/upload/UploadClient.tsx: the upload page's state.  Choosing a file sends it to the
 * extraction endpoint and fills the essay text and the teacher comments from the reply,
 * reporting progress as 30, 70 and 100; submitting checks that a title and a text are
 * present and posts the essay.  Each handler awaits one request; it is modelled as the
 * part that runs before the `await` and the part that runs after it, with the reply as
 * an input.
 */
module Upload {
  import opened Wrappers
  import opened Text
  import opened Fetch

  /** A character of the class `[^/.]`. */
  predicate StemChar(c: char) {
    c != '/' && c != '.'
  }

  /** Position `i` of `s` exists and holds a `[^/.]` character. */
  predicate StemCharAt(s: string, i: int) {
    0 <= i < |s| && StemChar(s[i])
  }

  /** The length of the longest suffix made of `[^/.]` characters. */
  function TrailingStemRun(s: string): (k: nat)
    ensures k <= |s|
    ensures forall i :: |s| - k <= i < |s| ==> StemChar(s[i])
    ensures k < |s| ==> !StemChar(s[|s| - k - 1])
    decreases |s|
  {
    if s != [] && StemChar(s[|s| - 1]) then TrailingStemRun(s[..|s| - 1]) + 1 else 0
  }

  /** The pattern `\.[^/.]+$` matches at position `j` of `name`. */
  predicate ExtensionAt(name: string, j: nat) {
    j + 1 < |name| && name[j] == '.' && forall i :: j < i < |name| ==> StemChar(name[i])
  }

  /** The pattern can match at one position at most: the dot just before the final run. */
  lemma ExtensionAtRun(name: string, j: nat)
    ensures ExtensionAt(name, j) ==> TrailingStemRun(name) == |name| - j - 1
  {
    var k := TrailingStemRun(name);
    if ExtensionAt(name, j) {
      assert k > |name| - j - 1 ==> StemChar(name[j]);
      assert k < |name| - j - 1 ==> StemCharAt(name, |name| - k - 1);
    }
  }

  /**
   * `selectedFile.name.replace(/\.[^/.]+$/, '')`: the file name without its extension, that
   * is, without a final '.' and the non-empty run of characters other than '/' and '.'
   * after it.  A name without such an ending is returned unchanged.
   */
  function TitleStem(name: string): (r: string)
    ensures |r| <= |name| && r == name[..|r|]
    ensures r != name <==> exists j :: 0 <= j < |name| && ExtensionAt(name, j)
    ensures r != name ==> ExtensionAt(name, |r|)
  {
    var k := TrailingStemRun(name);
    if 0 < k < |name| && name[|name| - k - 1] == '.' then
      assert ExtensionAt(name, |name| - k - 1);
      name[..|name| - k - 1]
    else
      StemUnchanged(name);
      name
  }

  lemma StemUnchanged(name: string)
    ensures (exists j :: 0 <= j < |name| && ExtensionAt(name, j)) ==>
      var k := TrailingStemRun(name);
      0 < k < |name| && name[|name| - k - 1] == '.'
  {
    if exists j :: 0 <= j < |name| && ExtensionAt(name, j) {
      var j :| 0 <= j < |name| && ExtensionAt(name, j);
      ExtensionAtRun(name, j);
    }
  }

  /** Removing the extension undoes appending one: "essay.final.docx" becomes "essay.final". */
  lemma TitleStemOfExtension(stem: string, ext: string)
    requires ext != [] && forall i :: 0 <= i < |ext| ==> StemChar(ext[i])
    ensures TitleStem(stem + "." + ext) == stem
  {
    var name := stem + "." + ext;
    assert forall i :: |stem| < i < |name| ==> name[i] == ext[i - |stem| - 1];
    assert ExtensionAt(name, |stem|);
    ExtensionAtRun(name, |stem|);
    assert name[..|stem|] == stem;
  }

  /**
   * Two names lose their extension; a name without a dot, one that ends in a dot and one
   * whose last dot is followed by a '/' keep their full text.
   */
  lemma TitleStemExamples()
    ensures TitleStem("essay.pdf") == "essay"
    ensures TitleStem("archive.tar.gz") == "archive.tar"
    ensures TitleStem("notes") == "notes"
    ensures TitleStem("draft.") == "draft."
    ensures TitleStem("a.b/c") == "a.b/c"
  {
    TitleStemOfExtension("essay", "pdf");
    TitleStemOfExtension("archive.tar", "gz");
    assert "archive.tar" + "." + "gz" == "archive.tar.gz";
    assert "essay" + "." + "pdf" == "essay.pdf";
    assert !ExtensionAt("draft.", 5);
    assert forall j :: 0 <= j < 5 ==> "draft."[j] != '.';
    assert forall j :: 0 <= j < 5 ==> "notes"[j] != '.';
    assert !ExtensionAt("a.b/c", 1) by { assert !StemChar("a.b/c"[3]); }
    assert forall j :: 0 <= j < 5 && j != 1 ==> "a.b/c"[j] != '.';
  }

  /** The body of a successful extraction reply. */
  datatype UploadData = UploadData(text: string, teacherComments: Option<seq<string>>)

  /** The essay posted by a submit. */
  datatype EssayRequest = EssayRequest(title: string, content: string,
                                       assignmentName: string, teacherComments: seq<string>)

  const ProcessFailed := "Failed to process file"
  const ProcessCaught := "Error processing file. Please try again."
  const FieldsRequired := "Title and content are required"
  const AnalyzeFailed := "Failed to analyze essay"
  const SubmitCaught := "Error submitting essay. Please try again."

  /**
   * The last progress value a file change writes for a given reply: 30 is set before the
   * request and is all that is left when `fetch` throws, 70 once a response arrives,
   * 100 only after a successful one.
   */
  function ProgressAfter(reply: Reply<UploadData>): (p: nat)
    ensures p == 100 <==> reply.Ok?
    ensures p == 30 <==> reply.FetchThrew?
    ensures p == 70 <==> reply.BodyThrew? || reply.NotOk?
  {
    match reply
    case FetchThrew => 30
    case Ok(_) => 100
    case _ => 70
  }

  /** The progress bar is drawn while `0 < uploadProgress < 100`. */
  predicate ProgressBarShown(p: nat) {
    0 < p < 100
  }

  /** Once a file change is over, the progress bar is still drawn exactly when it failed. */
  lemma ProgressBarOnlyOnFailure(reply: Reply<UploadData>)
    ensures ProgressBarShown(ProgressAfter(reply)) <==> !reply.Ok?
  {
  }

  /** `!title || !content`: the message a submit stops with, if any. */
  function SubmitError(title: string, content: string): (e: Option<string>)
    ensures e.Some? <==> title == "" || content == ""
    ensures e.Some? ==> e.value == FieldsRequired
  {
    if title == "" || content == "" then Some(FieldsRequired) else None
  }

  /** `/essays/${data.essay.id}`: the page the browser is sent to after a submit. */
  function EssayPath(id: string): (path: string)
    ensures StartsWith(path, "/essays/") && path[8..] == id
  {
    "/essays/" + id
  }

  /** Different essays lead to different pages. */
  lemma EssayPathInjective(a: string, b: string)
    ensures EssayPath(a) == EssayPath(b) ==> a == b
  {
  }

  class UploadForm {
    var title: string
    var assignmentName: string
    var content: string
    /** The name of the chosen file, if any. */
    var file: Option<string>
    var loading: bool
    var uploadProgress: nat
    var error: string
    var extractedComments: seq<string>
    /** Where `router.push` sent the browser, if it did. */
    var redirect: Option<string>

    /** Progress only ever takes the values the handlers write. */
    predicate Valid()
      reads this
    {
      uploadProgress == 0 || uploadProgress == 30 || uploadProgress == 70 || uploadProgress == 100
    }

    /**
     * Whether the page draws the progress bar (`uploadProgress > 0 && uploadProgress < 100`):
     * exactly while progress stands at one of the two intermediate values the handlers write.
     */
    function ProgressBarVisible(): (shown: bool)
      reads this
      requires Valid()
      ensures shown <==> uploadProgress == 30 || uploadProgress == 70
    {
      ProgressBarShown(uploadProgress)
    }

    /** The initial `useState` values. */
    constructor ()
      ensures Valid()
      ensures title == "" && assignmentName == "" && content == "" && file == None
      ensures !loading && uploadProgress == 0 && error == "" && extractedComments == []
      ensures redirect == None
    {
      title, assignmentName, content, file := "", "", "", None;
      loading, uploadProgress, error, extractedComments := false, 0, "", [];
      redirect := None;
    }

    /** The `onChange` of the title field. */
    method SetTitle(t: string)
      modifies this
      requires Valid()
      ensures Valid()
      ensures title == t
      ensures assignmentName == old(assignmentName) && content == old(content) && file == old(file)
      ensures loading == old(loading) && uploadProgress == old(uploadProgress) && error == old(error)
      ensures extractedComments == old(extractedComments) && redirect == old(redirect)
    {
      title := t;
    }

    /** The `onChange` of the assignment field. */
    method SetAssignmentName(a: string)
      modifies this
      requires Valid()
      ensures Valid()
      ensures assignmentName == a
      ensures title == old(title) && content == old(content) && file == old(file)
      ensures loading == old(loading) && uploadProgress == old(uploadProgress) && error == old(error)
      ensures extractedComments == old(extractedComments) && redirect == old(redirect)
    {
      assignmentName := a;
    }

    /** The `onChange` of the essay text area. */
    method SetContent(c: string)
      modifies this
      requires Valid()
      ensures Valid()
      ensures content == c
      ensures title == old(title) && assignmentName == old(assignmentName) && file == old(file)
      ensures loading == old(loading) && uploadProgress == old(uploadProgress) && error == old(error)
      ensures extractedComments == old(extractedComments) && redirect == old(redirect)
    {
      content := c;
    }

    /**
     * `handleFileChange` up to the `await`: with no file chosen nothing happens; otherwise
     * the file is recorded, loading starts, the error is cleared and progress shows 30.
     */
    method BeginFileChange(selected: Option<string>) returns (started: bool)
      modifies this
      requires Valid()
      ensures Valid()
      ensures started <==> selected.Some?
      ensures !started ==>
        && file == old(file) && loading == old(loading) && error == old(error)
        && uploadProgress == old(uploadProgress)
      ensures started ==> file == selected && loading && error == "" && uploadProgress == 30
      ensures title == old(title) && assignmentName == old(assignmentName) && content == old(content)
      ensures extractedComments == old(extractedComments) && redirect == old(redirect)
    {
      if selected.None? {
        return false;
      }
      file := selected;
      loading := true;
      error := "";
      uploadProgress := 30;
      return true;
    }

    /**
     * `handleFileChange` after the `await`.  `titleAtStart` is the title the handler's
     * closure saw when the file was chosen: only if it was empty does the file name's stem
     * become the title.  Whatever the reply, loading ends.
     */
    method CompleteFileChange(name: string, titleAtStart: string, reply: Reply<UploadData>)
      modifies this
      requires Valid()
      ensures Valid()
      ensures !loading
      ensures uploadProgress == if reply.FetchThrew? then old(uploadProgress) else ProgressAfter(reply)
      ensures error == ReplyError(reply, ProcessFailed, ProcessCaught).GetOr(old(error))
      ensures reply.Ok? ==>
        && content == reply.data.text
        && extractedComments == reply.data.teacherComments.GetOr([])
        && title == (if titleAtStart == "" then TitleStem(name) else old(title))
      ensures !reply.Ok? ==>
        content == old(content) && extractedComments == old(extractedComments) && title == old(title)
      ensures assignmentName == old(assignmentName) && file == old(file) && redirect == old(redirect)
    {
      match reply {
        case FetchThrew =>
          error := ProcessCaught;
        case BodyThrew(_) =>
          uploadProgress := 70;
          error := ProcessCaught;
        case NotOk(field) =>
          uploadProgress := 70;
          error := ErrorOr(field, ProcessFailed);
        case Ok(data) =>
          uploadProgress := 70;
          content := data.text;
          extractedComments := data.teacherComments.GetOr([]);
          uploadProgress := 100;
          if titleAtStart == "" {
            title := TitleStem(name);
          }
      }
      loading := false;
    }

    /**
     * The whole of `handleFileChange` when no other handler runs during the request: a
     * chosen file ends with loading off, progress at `ProgressAfter(reply)`, and the error
     * empty exactly when the reply succeeded; a failed reply leaves the text, the comments
     * and the title alone and sets the reply's error message.
     */
    method HandleFileChange(selected: Option<string>, reply: Reply<UploadData>)
      modifies this
      requires Valid()
      ensures Valid()
      ensures selected.None? ==>
        && loading == old(loading) && uploadProgress == old(uploadProgress)
        && content == old(content) && error == old(error) && file == old(file)
        && title == old(title) && extractedComments == old(extractedComments)
      ensures selected.Some? ==>
        && file == selected && !loading
        && uploadProgress == ProgressAfter(reply)
        && (error == "" <==> reply.Ok?)
      ensures selected.Some? && reply.Ok? ==>
        && content == reply.data.text
        && extractedComments == reply.data.teacherComments.GetOr([])
        && title == (if old(title) == "" then TitleStem(selected.value) else old(title))
      ensures selected.Some? && !reply.Ok? ==>
        && content == old(content) && extractedComments == old(extractedComments) && title == old(title)
        && error == ReplyError(reply, ProcessFailed, ProcessCaught).value
      ensures assignmentName == old(assignmentName) && redirect == old(redirect)
    {
      var titleAtStart := title;
      var started := BeginFileChange(selected);
      if started {
        CompleteFileChange(selected.value, titleAtStart, reply);
      }
    }

    /**
     * `handleSubmit` up to the `await`: with an empty title or an empty text the error is
     * set and no request is made; otherwise loading starts, the error is cleared and the
     * request carries the form's fields and the extracted comments.
     */
    method BeginSubmit() returns (request: Option<EssayRequest>)
      modifies this
      requires Valid()
      ensures Valid()
      ensures request.None? <==> SubmitError(old(title), old(content)).Some?
      ensures request.None? ==> error == FieldsRequired && loading == old(loading)
      ensures request.Some? ==> loading && error == ""
      ensures request.Some? ==>
        request.value == EssayRequest(title, content, assignmentName, extractedComments)
      ensures title == old(title) && assignmentName == old(assignmentName) && content == old(content)
      ensures file == old(file) && uploadProgress == old(uploadProgress)
      ensures extractedComments == old(extractedComments) && redirect == old(redirect)
    {
      if title == "" || content == "" {
        error := FieldsRequired;
        return None;
      }
      loading := true;
      error := "";
      return Some(EssayRequest(title, content, assignmentName, extractedComments));
    }

    /**
     * `handleSubmit` after the `await`: a created essay sends the browser to its page, any
     * other reply sets the error; whatever the reply, loading ends.
     */
    method CompleteSubmit(reply: Reply<string>)
      modifies this
      requires Valid()
      ensures Valid()
      ensures !loading
      ensures error == ReplyError(reply, AnalyzeFailed, SubmitCaught).GetOr(old(error))
      ensures redirect == if reply.Ok? then Some(EssayPath(reply.data)) else old(redirect)
      ensures title == old(title) && assignmentName == old(assignmentName) && content == old(content)
      ensures file == old(file) && uploadProgress == old(uploadProgress)
      ensures extractedComments == old(extractedComments)
    {
      match reply {
        case Ok(id) =>
          redirect := Some(EssayPath(id));
        case NotOk(field) =>
          error := ErrorOr(field, AnalyzeFailed);
        case _ =>
          error := SubmitCaught;
      }
      loading := false;
    }
  }
}
