/** The upload form of components/ModelUploader.tsx: the screening of a chosen
    file, the reading of it into a data URL, and the publish step that commits
    the file into the `models/` directory of the configured repository. */
module ModelUploader {
  import opened Types
  import opened JsString
  import opened Seqs

  const MaxFileSize: nat := 50 * 1024 * 1024
  const SupportedFormats: seq<string> := [".glb", ".gltf", ".usdz"]

  const SizeMessage: string := "File size exceeds the 50MB limit. Please optimize your model and try again."
  const FormatMessage: string := "Please upload a valid .glb, .gltf, or .usdz file."
  const ReadFailureMessage: string := "Failed to read the file. Please try again."
  const MissingInputMessage: string := "Please provide a title and a supported model file to publish."
  const NotConfiguredMessage: string :=
    "GitHub settings are not configured. Please configure them via the settings icon in the header."
  const NoContentMessage: string := "Could not extract file content."
  const UploadFallback: string := "Failed to upload."
  const UploadErrorPrefix: string := "GitHub API Error: "
  const NotFoundHelp: string := FailurePrefix +
    "GitHub returned \"Not Found\". Please check your settings: owner, repository name, and branch must be correct. For private repos, your PAT needs \"repo\" scope."
  const FailurePrefix: string := "Upload failed: "
  const DefaultBranch: string := "main"

  /** A file the user picked or dropped: its name and its size in bytes. */
  datatype LocalFile = LocalFile(name: string, size: nat)

  // ---------------------------------------------------------------------
  // Screening a chosen file
  // ---------------------------------------------------------------------

  /** `name.slice(name.lastIndexOf('.')).toLowerCase()`. */
  function FileExtension(name: string): string {
    ToLower(Slice(name, LastIndexOf(name, '.')))
  }

  /** The extension is one of the three model formats. */
  predicate IsSupported(name: string) {
    FileExtension(name) in SupportedFormats
  }

  /** The message `processFile` shows for a chosen file, or None when reading starts. */
  function Screen(f: LocalFile): (r: Option<string>)
    ensures r.None? <==> IsSupported(f.name) && f.size <= MaxFileSize
    ensures r.Some? ==> r.value in {FormatMessage, SizeMessage}
  {
    if !IsSupported(f.name) then Some(FormatMessage)
    else if f.size > MaxFileSize then Some(SizeMessage)
    else None
  }

  /** A name is supported exactly when it has a dot and the text from its last dot
      on is, ignoring case, `.glb`, `.gltf` or `.usdz`; a name without any dot is
      never supported. */
  lemma SupportedIff(name: string)
    ensures IsSupported(name) <==>
              var k := LastIndexOf(name, '.'); k >= 0 && ToLower(name[k..]) in SupportedFormats
  {
    var k := LastIndexOf(name, '.');
    if k < 0 {
      assert |FileExtension(name)| <= 1;
    }
  }

  /** A name ending in a supported extension, written in any case, is supported,
      whatever comes before it. */
  lemma SupportedByExtension(base: string, ext: string)
    requires ToLower(ext) in SupportedFormats
    ensures IsSupported(base + ext)
  {
    var name := base + ext;
    assert ext[0] == '.' by {
      assert ToLower(ext)[0] == '.';
    }
    assert forall j | 0 < j < |ext| :: ext[j] != '.' by {
      forall j | 0 < j < |ext|
        ensures ext[j] != '.'
      {
        assert ToLower(ext)[j] != '.';
      }
    }
    assert name[|base|] == '.';
    assert forall j | |base| < j < |name| :: name[j] == ext[j - |base|];
    assert LastIndexOf(name, '.') == |base|;
    assert name[|base|..] == ext;
  }

  /** The largest accepted size is 52428800 bytes: one byte more is refused. */
  lemma SizeBoundary(name: string)
    requires IsSupported(name)
    ensures MaxFileSize == 52428800
    ensures Screen(LocalFile(name, MaxFileSize)) == None
    ensures Screen(LocalFile(name, MaxFileSize + 1)) == Some(SizeMessage)
  {
  }

  /** An unsupported name is refused with the format message whatever its size. */
  lemma FormatCheckedFirst(f: LocalFile)
    requires !IsSupported(f.name)
    ensures Screen(f) == Some(FormatMessage)
  {
  }

  // ---------------------------------------------------------------------
  // Reading the file (FileReader events)
  // ---------------------------------------------------------------------

  /** The part of the form's state the reader's handlers touch. */
  datatype Selection = Selection(file: Option<LocalFile>, previewUrl: Option<string>,
                                 error: Option<string>, uploadSuccess: bool)

  /** The events a `FileReader` dispatches, and how a read ends. */
  datatype ReaderEvent = Load | Error | LoadEnd
  datatype ReadOutcome = ReadSucceeded(dataUrl: string) | ReadFailed

  /** The events of a read in dispatch order: `load` or `error`, then `loadend`
      (the File API). */
  function Events(o: ReadOutcome): seq<ReaderEvent> {
    if o.ReadSucceeded? then [Load, LoadEnd] else [Error, LoadEnd]
  }

  /** `reader.result` once the read is over: the data URL, or null after a failure. */
  function ResultOf(o: ReadOutcome): Option<string> {
    if o.ReadSucceeded? then Some(o.dataUrl) else None
  }

  /** The handlers as the component installs them: `onloadend` always takes the
      file and the result and clears the error. */
  function OnEventAsWritten(s: Selection, selected: LocalFile, e: ReaderEvent, result: Option<string>): Selection {
    match e
    case Load => s
    case Error => s.(error := Some(ReadFailureMessage))
    case LoadEnd => Selection(Some(selected), result, None, true)
  }

  /** The handlers with `onloadend` acting only when there is a result. */
  function OnEvent(s: Selection, selected: LocalFile, e: ReaderEvent, result: Option<string>): Selection {
    match e
    case Load => s
    case Error => s.(error := Some(ReadFailureMessage))
    case LoadEnd => if result.Some? then Selection(Some(selected), result, None, true) else s
  }

  /** The state after the events, handled one by one. */
  function Deliver(asWritten: bool, s: Selection, selected: LocalFile, events: seq<ReaderEvent>,
                   result: Option<string>): Selection
    decreases |events|
  {
    if events == [] then s
    else
      var next := if asWritten then OnEventAsWritten(s, selected, events[0], result)
                  else OnEvent(s, selected, events[0], result);
      Deliver(asWritten, next, selected, events[1..], result)
  }

  /** As written, a failed read ends with no error shown, the file taken and no
      preview: the read-failure message is overwritten by `onloadend`. */
  lemma ReadFailureMessageLost(s: Selection, selected: LocalFile)
    ensures var r := Deliver(true, s, selected, Events(ReadFailed), ResultOf(ReadFailed));
            r.error == None && r.file == Some(selected) && r.previewUrl == None
  {
    var e := Events(ReadFailed);
    assert e[1..] == [LoadEnd];
  }

  /** With `onloadend` ignoring a missing result, a failed read shows the
      read-failure message and leaves the chosen file and its preview as they were. */
  lemma ReadFailureReported(s: Selection, selected: LocalFile)
    ensures var r := Deliver(false, s, selected, Events(ReadFailed), ResultOf(ReadFailed));
            r == s.(error := Some(ReadFailureMessage))
  {
    var e := Events(ReadFailed);
    assert e[1..] == [LoadEnd];
  }

  /** On a successful read both versions take the file and its data URL and clear the error. */
  lemma ReadSuccessAgrees(s: Selection, selected: LocalFile, dataUrl: string)
    ensures var o := ReadSucceeded(dataUrl);
            Deliver(true, s, selected, Events(o), ResultOf(o)) == Deliver(false, s, selected, Events(o), ResultOf(o))
            == Selection(Some(selected), Some(dataUrl), None, true)
  {
    var o := ReadSucceeded(dataUrl);
    var e := Events(o);
    var done := Selection(Some(selected), Some(dataUrl), None, true);
    assert e[1..] == [LoadEnd] && [LoadEnd][1..] == [];
    assert Deliver(true, s, selected, e, ResultOf(o)) == Deliver(true, s, selected, [LoadEnd], ResultOf(o)) == done;
    assert Deliver(false, s, selected, e, ResultOf(o)) == Deliver(false, s, selected, [LoadEnd], ResultOf(o)) == done;
  }

  // ---------------------------------------------------------------------
  // Publishing
  // ---------------------------------------------------------------------

  /** `${Date.now()}-${name.replace(/ /g, '_')}`. */
  function UniqueFileName(now: nat, name: string): string {
    Decimal(now) + "-" + ReplaceAll(name, ' ', '_')
  }

  /** A published file name has no space in it. */
  lemma UniqueFileNameHasNoSpace(now: nat, name: string)
    ensures ' ' !in UniqueFileName(now, name)
  {
    ReplaceAllRemoves(name, ' ', '_');
    var d := Decimal(now);
    var f := UniqueFileName(now, name);
    forall i | 0 <= i < |f|
      ensures f[i] != ' '
    {
      if i < |d| {
        assert f[i] == d[i];
      } else if i > |d| {
        assert f[i] == ReplaceAll(name, ' ', '_')[i - |d| - 1];
      }
    }
  }

  /** The text before the first `-` of a published file name is the timestamp,
      in decimal digits, so the timestamp can be read back. */
  lemma TimestampRecoverable(now: nat, name: string)
    ensures var f := UniqueFileName(now, name);
            var k := IndexOf(f, '-');
            0 <= k && f[..k] == Decimal(now) && AllDigits(f[..k]) && ValueOf(f[..k]) == now
  {
    var d := Decimal(now);
    var f := UniqueFileName(now, name);
    assert f[|d|] == '-';
    assert forall j | 0 <= j < |d| :: f[j] == d[j];
    var k := IndexOf(f, '-');
    assert k == |d|;
    assert f[..k] == d;
    DecimalRoundTrip(now);
  }

  /** Publishes at different instants commit to different file names, whatever the files are called. */
  lemma DistinctInstantsDistinctNames(t1: nat, t2: nat, n1: string, n2: string)
    requires t1 != t2
    ensures UniqueFileName(t1, n1) != UniqueFileName(t2, n2)
  {
    TimestampRecoverable(t1, n1);
    TimestampRecoverable(t2, n2);
  }

  /** At a single instant, `a b.glb` and `a_b.glb` commit to the same file name. */
  lemma SameInstantCollision(now: nat, n1: string, n2: string)
    requires n1 == "a b.glb" && n2 == "a_b.glb"
    ensures n1 != n2 && UniqueFileName(now, n1) == UniqueFileName(now, n2)
  {
    assert n1[1] != n2[1];
    assert ReplaceAll(n1, ' ', '_') == ReplaceAll(n2, ' ', '_');
  }

  /** `previewUrl.split(',')[1]`, when present and non-empty. */
  function Content(dataUrl: string): Option<string> {
    var parts := Split(dataUrl, ',');
    if |parts| >= 2 && parts[1] != "" then Some(parts[1]) else None
  }

  /** The first comma of `a + "," + b` is the one between them when `a` has none. */
  lemma FirstCommaAt(a: string, b: string)
    requires ',' !in a
    ensures IndexOf(a + "," + b, ',') == |a|
    ensures (a + "," + b)[|a| + 1..] == b
  {
    var s := a + "," + b;
    assert s[|a|] == ',';
    assert forall j | 0 <= j < |a| :: s[j] == a[j];
  }

  /** For a data URL `data:<type>;base64,<payload>` whose payload has no comma (the
      base64 alphabet has none), the content sent is exactly the payload. */
  lemma ContentOfDataUrl(header: string, payload: string)
    requires ',' !in header && ',' !in payload && payload != ""
    ensures Content(header + "," + payload) == Some(payload)
  {
    var s := header + "," + payload;
    FirstCommaAt(header, payload);
    SplitFirst(s, ',');
    SplitFirst(payload, ',');
  }

  /** A text with no comma has no content. */
  lemma NoCommaNoContent(dataUrl: string)
    requires ',' !in dataUrl
    ensures Content(dataUrl) == None
  {
    SplitFirst(dataUrl, ',');
  }

  /** The `PUT` request of the contents API: its address, its `Authorization`
      header and its JSON body. */
  datatype CommitRequest = CommitRequest(url: string, authorization: string, message: string,
                                         content: string, branch: string)

  /** The request committing `content` as `models/<fileName>`. */
  function CommitFor(config: GitHubConfig, fileName: string, content: string): (r: CommitRequest)
    ensures r.branch == (if config.branch != "" then config.branch else DefaultBranch)
    ensures r.content == content
    // the token goes in the `Authorization` header after the `token` scheme
    ensures StartsWith(r.authorization, "token ") && r.authorization[|"token "|..] == config.pat
  {
    CommitRequest(
      "https://api.github.com/repos/" + config.owner + "/" + config.repo + "/contents/models/" + fileName,
      "token " + config.pat,
      "feat: add 3D model '" + fileName + "'",
      content,
      if config.branch != "" then config.branch else DefaultBranch)
  }

  /** The request writes the file `models/<fileName>` of the configured repository. */
  lemma CommitTargetsFile(config: GitHubConfig, fileName: string, content: string)
    ensures StartsWith(CommitFor(config, fileName, content).url,
                       "https://api.github.com/repos/" + config.owner + "/" + config.repo + "/")
    ensures EndsWith(CommitFor(config, fileName, content).url, "/contents/models/" + fileName)
  {
    var url := CommitFor(config, fileName, content).url;
    var tail := "/contents/models/" + fileName;
    var head := "https://api.github.com/repos/" + config.owner + "/" + config.repo;
    assert url == head + tail;
    assert url[|url| - |tail|..] == tail;
    assert url[..|head| + 1] == head + "/";
  }

  /** The commit message is the fixed `feat: add 3D model` text naming the committed file. */
  lemma CommitMessageNamesFile(config: GitHubConfig, fileName: string, content: string)
    ensures StartsWith(CommitFor(config, fileName, content).message, "feat: add 3D model '")
    ensures Contains(CommitFor(config, fileName, content).message, fileName)
  {
    var pre := "feat: add 3D model '";
    ContainsSuffix(pre, fileName + "'");
    ContainsIff(pre + (fileName + "'"), fileName + "'");
    var i :| OccursAt(pre + (fileName + "'"), fileName + "'", i);
    var m := CommitFor(config, fileName, content).message;
    assert m == pre + (fileName + "'");
    assert m[i..i + |fileName|] == (fileName + "'")[..|fileName|] == fileName;
    assert OccursAt(m, fileName, i);
    ContainsIff(m, fileName);
    assert m[..|pre|] == pre;
  }

  /** The JSON body of an error reply, or a body that is not JSON. */
  datatype ReplyBody =
    | Json(message: Option<string>)   // any JSON value but `null`; `message` reads as undefined on a non-object
    | JsonNull(reason: string)        // `null`, with the message of the `TypeError` reading its `message` throws
    | Unparseable(reason: string)

  /** What the `PUT` request leads to: a reply, or a rejected `fetch`. */
  datatype UploadResponse = Responded(status: nat, body: ReplyBody) | NetworkFailure(reason: string)

  /** The message of the error the request path throws, or None when the reply is ok. */
  function UploadError(response: UploadResponse): (r: Option<string>)
    ensures r.None? <==> response.Responded? && 200 <= response.status <= 299
    // a rejected request, a body that is not JSON and a `null` body each throw their own error
    ensures response.NetworkFailure? ==> r == Some(response.reason)
    ensures response.Responded? && r.Some? && !response.body.Json? ==> r == Some(response.body.reason)
  {
    match response
    case NetworkFailure(reason) => Some(reason)
    case Responded(status, body) =>
      if 200 <= status <= 299 then None
      else match body
        case Json(m) => Some(UploadErrorPrefix + (if Truthy(m) then m.value else UploadFallback))
        case JsonNull(reason) => Some(reason)
        case Unparseable(reason) => Some(reason)
  }

  /** A non-ok reply with a JSON body throws `GitHub API Error: ` followed by
      GitHub's message, or by the fixed fallback when there is none. */
  lemma UploadMessageShape(status: nat, m: Option<string>)
    requires !(200 <= status <= 299)
    ensures var r := UploadError(Responded(status, Json(m)));
            r.Some? && StartsWith(r.value, UploadErrorPrefix) &&
            r.value[|UploadErrorPrefix|..] == (if Truthy(m) then m.value else UploadFallback)
  {
    var tail := if Truthy(m) then m.value else UploadFallback;
    assert (UploadErrorPrefix + tail)[..|UploadErrorPrefix|] == UploadErrorPrefix;
    assert (UploadErrorPrefix + tail)[|UploadErrorPrefix|..] == tail;
  }

  /** The message shown for a caught error. */
  function ShownError(message: string): string {
    if Contains(message, "Not Found") then NotFoundHelp else FailurePrefix + message
  }

  /** Every caught error is shown behind the `Upload failed: ` prefix, and one
      not mentioning `Not Found` is shown in full after it. */
  lemma ShownErrorPrefix(message: string)
    ensures StartsWith(ShownError(message), FailurePrefix)
    ensures !Contains(message, "Not Found") ==> ShownError(message)[|FailurePrefix|..] == message
  {
    assert (FailurePrefix + message)[..|FailurePrefix|] == FailurePrefix;
    assert (FailurePrefix + message)[|FailurePrefix|..] == message;
  }

  /** A GitHub message that includes `Not Found` (an unknown owner, repository
      or branch, or a token without access) is shown as the settings hint. */
  lemma NotFoundShowsHint(status: nat, githubMessage: string)
    requires !(200 <= status <= 299) && Contains(githubMessage, "Not Found")
    ensures ShownError(UploadError(Responded(status, Json(Some(githubMessage)))).value) == NotFoundHelp
  {
    ContainsInSuffix(UploadErrorPrefix, githubMessage, "Not Found");
  }

  /** A data URL without content is reported as such. */
  lemma MissingContentShown(m: string)
    requires m == NoContentMessage
    ensures ShownError(m) == FailurePrefix + NoContentMessage
  {
    assert 'N' !in m;
    NotContainsWithoutFirst(m, "Not Found");
  }

  /** What one press of Publish leads to. */
  datatype PublishResult =
    | Refused(message: string)                            // stopped before uploading starts
    | Failed(request: Option<CommitRequest>, message: string)
    | Published(commit: CommitRequest)

  /** The form is complete: a file read into a preview and a title with content. */
  predicate Ready(file: Option<LocalFile>, previewUrl: Option<string>, title: string) {
    file.Some? && Truthy(previewUrl) && !IsBlank(title)
  }

  /** `handlePublishClick`, from the form's state, the stored configuration, the
      clock and the reply. */
  function PublishOutcome(file: Option<LocalFile>, previewUrl: Option<string>, title: string,
                          storedConfig: Option<GitHubConfig>, now: nat, response: UploadResponse): PublishResult
  {
    if !Ready(file, previewUrl, title) then Refused(MissingInputMessage)
    else if storedConfig.None? then Refused(NotConfiguredMessage)
    else
      var content := Content(previewUrl.value);
      if content.None? then Failed(None, ShownError(NoContentMessage))
      else
        var request := CommitFor(storedConfig.value, UniqueFileName(now, file.value.name), content.value);
        var failure := UploadError(response);
        if failure.Some? then Failed(Some(request), ShownError(failure.value)) else Published(request)
  }

  /** What a press of Publish leads to: a refusal exactly when the form is
      incomplete or nothing is configured, with the matching message; a failure
      before any request when the preview has no content; otherwise the commit
      request, published exactly when the reply is ok. Every failure is shown
      with the `Upload failed: ` prefix. */
  lemma PublishOutcomeCases(file: Option<LocalFile>, previewUrl: Option<string>, title: string,
                            storedConfig: Option<GitHubConfig>, now: nat, response: UploadResponse)
    ensures var r := PublishOutcome(file, previewUrl, title, storedConfig, now, response);
            && (r.Refused? <==> !Ready(file, previewUrl, title) || storedConfig.None?)
            && (r.Refused? ==> r.message == (if Ready(file, previewUrl, title) then NotConfiguredMessage else MissingInputMessage))
            && (r.Failed? ==> StartsWith(r.message, FailurePrefix))
            && (r.Failed? && r.request.None? <==> !r.Refused? && Content(previewUrl.value).None?)
            && (!r.Refused? && Content(previewUrl.value).Some? ==>
                  var req := CommitFor(storedConfig.value, UniqueFileName(now, file.value.name), Content(previewUrl.value).value);
                  (r.Published? <==> UploadError(response).None?) &&
                  (r.Published? ==> r.commit == req) &&
                  (r.Failed? ==> r.request == Some(req) && r.message == ShownError(UploadError(response).value)))
  {
  }

  /** The text typed as title and description does not reach the request: only
      the file name, the clock and the content do. */
  lemma RequestIgnoresTitle(file: Option<LocalFile>, previewUrl: Option<string>, t1: string, t2: string,
                            storedConfig: Option<GitHubConfig>, now: nat, response: UploadResponse)
    requires Ready(file, previewUrl, t1) && Ready(file, previewUrl, t2)
    ensures PublishOutcome(file, previewUrl, t1, storedConfig, now, response)
            == PublishOutcome(file, previewUrl, t2, storedConfig, now, response)
  {
  }

  // ---------------------------------------------------------------------
  // The component
  // ---------------------------------------------------------------------

  /** The part of the form a successful publish clears. */
  datatype Draft = Draft(title: string, description: string, file: Option<LocalFile>, previewUrl: Option<string>)

  class Uploader {
    var title: string
    var description: string
    var file: Option<LocalFile>
    var previewUrl: Option<string>
    var error: Option<string>
    var isUploading: bool
    var uploadSuccess: bool

    constructor ()
      ensures title == "" && description == "" && file == None && previewUrl == None
      ensures error == None && !isUploading && !uploadSuccess
    {
      title := "";
      description := "";
      file := None;
      previewUrl := None;
      error := None;
      isUploading := false;
      uploadSuccess := false;
    }

    /** The fields the reader's handlers touch. */
    function Selected(): Selection
      reads this
    {
      Selection(file, previewUrl, error, uploadSuccess)
    }

    /** The fields a successful publish clears. */
    function Typed(): Draft
      reads this
    {
      Draft(title, description, file, previewUrl)
    }

    /** Typing into the title field. */
    method EditTitle(t: string)
      modifies this`title
      ensures title == t
    {
      title := t;
    }

    /** Typing into the description field. */
    method EditDescription(d: string)
      modifies this`description
      ensures description == d
    {
      description := d;
    }

    /** `processFile`: a refused file clears the selection and shows why; an
        accepted one starts a read (`reading`) and changes nothing yet; no file
        changes nothing. */
    method ProcessFile(selected: Option<LocalFile>) returns (reading: bool)
      modifies this`file, this`previewUrl, this`error
      ensures reading <==> selected.Some? && Screen(selected.value).None?
      ensures selected.Some? && Screen(selected.value).Some? ==>
                error == Screen(selected.value) && file == None && previewUrl == None
      ensures selected.None? || reading ==>
                error == old(error) && file == old(file) && previewUrl == old(previewUrl)
    {
      reading := false;
      if selected.Some? {
        var f := selected.value;
        var ext := ToLower(Slice(f.name, LastIndexOf(f.name, '.')));
        if ext in SupportedFormats {
          if f.size > 50 * 1024 * 1024 {
            error := Some(SizeMessage);
            file := None;
            previewUrl := None;
            return;
          }
          reading := true;
        } else {
          error := Some(FormatMessage);
          file := None;
          previewUrl := None;
        }
      }
    }

    /** `reader.onerror`. */
    method OnReadError()
      modifies this`error
      ensures error == Some(ReadFailureMessage)
    {
      error := Some(ReadFailureMessage);
    }

    /** `reader.onloadend`: the file and `reader.result` are taken and the error
        is cleared, whether or not the read produced a result. */
    method OnLoadEnd(selected: LocalFile, result: Option<string>)
      modifies this`file, this`previewUrl, this`error, this`uploadSuccess
      ensures Selected() == OnEventAsWritten(old(Selected()), selected, LoadEnd, result)
    {
      file := Some(selected);
      previewUrl := result;
      error := None;
      uploadSuccess := true;
    }

    /** The end of the read started for `selected`: its events, handled in order
        by the handlers the component installs. */
    method FinishRead(selected: LocalFile, outcome: ReadOutcome)
      modifies this`file, this`previewUrl, this`error, this`uploadSuccess
      ensures Selected() == Deliver(true, old(Selected()), selected, Events(outcome), ResultOf(outcome))
    {
      var e := Events(outcome);
      assert e[1..] == [LoadEnd] && [LoadEnd][1..] == [];
      ghost var s0 := old(Selected());
      ghost var s1 := OnEventAsWritten(s0, selected, e[0], ResultOf(outcome));
      assert Deliver(true, s0, selected, e, ResultOf(outcome))
          == Deliver(true, s1, selected, [LoadEnd], ResultOf(outcome))
          == OnEventAsWritten(s1, selected, LoadEnd, ResultOf(outcome));
      if outcome.ReadFailed? {
        OnReadError();
      }
      assert Selected() == s1;
      OnLoadEnd(selected, ResultOf(outcome));
    }

    /** The timer that hides the "file ready" notice two seconds later. */
    method UploadSuccessTimer()
      modifies this`uploadSuccess
      ensures !uploadSuccess
    {
      uploadSuccess := false;
    }

    /** The `try` block of `handlePublishClick`: the content is cut from the data
        URL, the commit is sent, and on an ok reply the form is cleared. `thrown`
        is the message the block throws, if any. */
    method TryCommit(config: GitHubConfig, now: nat, response: UploadResponse)
      returns (request: Option<CommitRequest>, thrown: Option<string>)
      requires file.Some? && previewUrl.Some?
      modifies this`title, this`description, this`file, this`previewUrl, this`error
      ensures var content := Content(old(previewUrl).value);
              && (content.None? ==> request == None && thrown == Some(NoContentMessage))
              && (content.Some? ==>
                    request == Some(CommitFor(config, UniqueFileName(now, old(file).value.name), content.value)) &&
                    thrown == UploadError(response))
      ensures thrown.Some? ==> Typed() == old(Typed()) && error == old(error)
      ensures thrown.None? ==> Typed() == Draft("", "", None, None) && error == None
    {
      request, thrown := None, None;
      var base64Content := Content(previewUrl.value);
      if base64Content.None? {
        thrown := Some(NoContentMessage);
        return;
      }
      var uniqueFileName := UniqueFileName(now, file.value.name);
      request := Some(CommitFor(config, uniqueFileName, base64Content.value));
      thrown := UploadError(response);
      if thrown.Some? {
        return;
      }
      title := "";
      description := "";
      file := None;
      previewUrl := None;
      error := None;
    }

    /** `handlePublishClick` run to completion: `request` is the `PUT` sent, if
        any, and `published` says whether `onPublish` was called. */
    method HandlePublishClick(storedConfig: Option<GitHubConfig>, now: nat, response: UploadResponse)
      returns (request: Option<CommitRequest>, published: bool)
      modifies this`title, this`description, this`file, this`previewUrl, this`error, this`isUploading
      ensures match PublishOutcome(old(file), old(previewUrl), old(title), storedConfig, now, response)
              case Refused(m) =>
                request == None && !published && error == Some(m) && isUploading == old(isUploading) && Typed() == old(Typed())
              case Failed(req, m) =>
                request == req && !published && error == Some(m) && !isUploading && Typed() == old(Typed())
              case Published(req) =>
                request == Some(req) && published && error == None && !isUploading && Typed() == Draft("", "", None, None)
    {
      request, published := None, false;
      ghost var outcome := PublishOutcome(file, previewUrl, title, storedConfig, now, response);
      if !Ready(file, previewUrl, title) {
        assert outcome == Refused(MissingInputMessage);
        error := Some(MissingInputMessage);
        return;
      }
      if storedConfig.None? {
        assert outcome == Refused(NotConfiguredMessage);
        error := Some(NotConfiguredMessage);
        return;
      }
      isUploading := true;
      error := None;
      var thrown;
      request, thrown := TryCommit(storedConfig.value, now, response);
      assert outcome == if thrown.Some? then Failed(request, ShownError(thrown.value)) else Published(request.value);
      if thrown.Some? {
        error := Some(ShownError(thrown.value));
      } else {
        published := true;
      }
      isUploading := false;
    }
  }
}
