/**
 The single-file server of backend/mul.js: its own allow-list and four
 hand-written handlers, each with fixed call options, a progress callback,
 cleanup on success only, and the exception message echoed on failure.
 */
module Mul {
  import opened Optional
  import opened Strings
  import opened Http
  import Upload
  import Config
  import Routes

  /** This server's allow-list: `gif` instead of `webp`. */
  const AllowedExtensions: seq<string> := ["png", "jpg", "jpeg", "gif"]

  /** 20 MiB; enforced by the upload parser, which is not part of this model. */
  const MaxFileSize: nat := 20 * 1024 * 1024

  const NoFileMessage: string := "No file uploaded"
  const InvalidTypeMessage: string := "Invalid file type. Allowed types: " + Join(AllowedExtensions, ", ")
  const FailureMessage: string := "Failed to process image. Please try again with a different image."

  /** The four inference routes. */
  datatype Task = Caption | ObjectDetection | EmotionDetection | Ocr

  function Path(task: Task): string
  {
    match task
    case Caption => "/generate-caption"
    case ObjectDetection => "/detect-obj"
    case EmotionDetection => "/detect-emo"
    case Ocr => "/generate-ocr"
  }

  /** The module variable holding the task's pipeline, `undefined` until it has loaded. */
  function ModelVariable(task: Task): string
  {
    match task
    case Caption => "classifier"
    case ObjectDetection => "objDetector"
    case EmotionDetection => "emoDetector"
    case Ocr => "ocrModel"
  }

  /** The options each handler passes; the OCR handler passes only the progress callback. */
  function RouteOptions(task: Task): Options
  {
    match task
    case Caption => Generation(50, 50)
    case ObjectDetection => Threshold(0.9)
    case EmotionDetection => Threshold(0.9)
    case Ocr => NoOptions
  }

  /** Caption and OCR answer with the first item's generated text; the others with the raw output. */
  predicate RepliesWithText(task: Task)
  {
    task.Caption? || task.Ocr?
  }

  /** `allowedFileType` of this file: the shared last-segment rule over this allow-list. */
  function AllowedFileType(filename: string): (ok: bool)
    ensures ok <==> Lower(filename[SegmentStart(filename, Upload.Dot)..]) in ["png", "jpg", "jpeg", "gif"]
  {
    Upload.AllowedFileType(AllowedExtensions, filename)
  }

  /**
   The success response. Reading `output[0].generated_text` of an empty output
   raises inside the `try`, after the file was already unlinked.
   */
  function SuccessReply(task: Task, out: Output): (e: Event)
    ensures e.Sent? && (e.status == StatusOk <==> !RepliesWithText(task) || |out.items| > 0)
    ensures e.status == StatusOk && RepliesWithText(task) ==> e.body == TextResult(out.items[0].generatedText)
    ensures !RepliesWithText(task) ==> e.body == Raw(out)
    ensures e.status != StatusOk ==> e == Sent(StatusServerError, ErrorDetails(FailureMessage, MissingFirstItem))
  {
    if !RepliesWithText(task) then Sent(StatusOk, Raw(out))
    else if |out.items| == 0 then Sent(StatusServerError, ErrorDetails(FailureMessage, MissingFirstItem))
    else Sent(StatusOk, TextResult(out.items[0].generatedText))
  }

  /** One of the four handlers; `model` is the task's module variable. */
  function Handle(task: Task, model: Option<Pipeline>, req: Request): (t: Trace)
    ensures Invocations(t) <= 1
    ensures req.file.None? ==>
      Reply(t) == Some(Sent(StatusBadRequest, ErrorBody(NoFileMessage))) && Invocations(t) == 0 && NoRemovals(t)
    ensures req.file.Some? && !AllowedFileType(req.file.value.originalName) ==>
      Reply(t) == Some(Sent(StatusBadRequest, ErrorBody(InvalidTypeMessage))) && Invocations(t) == 0 && NoRemovals(t)
    ensures req.file.Some? && AllowedFileType(req.file.value.originalName) && model.None? ==>
      Reply(t) == Some(Sent(StatusServerError, ErrorDetails(FailureMessage, NotAFunction(ModelVariable(task)))))
      && Invocations(t) == 0 && NoRemovals(t)
    ensures Invocations(t) == 1 <==>
      req.file.Some? && AllowedFileType(req.file.value.originalName) && model.Some?
    ensures Invocations(t) == 1 ==>
      var path := req.file.value.path;
      var call := Call(path, RouteOptions(task), true);
      && t[0] == Invoked(call)
      && match model.value(call)
         case Err(msg) =>
           Reply(t) == Some(Sent(StatusServerError, ErrorDetails(FailureMessage, EngineFault(msg)))) && NoRemovals(t)
         case Ok(out) =>
           && Removals(t, path) == 1
           && (forall p :: p != path ==> Removals(t, p) == 0)
           && RemovedBeforeReply(t, path)
           && Reply(t) == Some(SuccessReply(task, out))
  {
    match req.file
    case None => [Sent(StatusBadRequest, ErrorBody(NoFileMessage))]
    case Some(file) =>
      if !AllowedFileType(file.originalName) then [Sent(StatusBadRequest, ErrorBody(InvalidTypeMessage))]
      else match model
        case None => [Sent(StatusServerError, ErrorDetails(FailureMessage, NotAFunction(ModelVariable(task))))]
        case Some(pipeline) =>
          var call := Call(file.path, RouteOptions(task), true);
          match pipeline(call)
          case Err(msg) =>
            var t := [Invoked(call), Sent(StatusServerError, ErrorDetails(FailureMessage, EngineFault(msg)))];
            Queries2(t[0], t[1]);
            t
          case Ok(out) =>
            var t := [Invoked(call), Removed(file.path), SuccessReply(task, out)];
            Queries3(t[0], t[1], t[2]);
            assert RemovedBeforeReply(t, file.path) by {
              assert t[1] == Removed(file.path) && !Terminal(t[0]) && !Terminal(t[1]);
            }
            t
  }

  /** The engine's error message is echoed: two different failures give two different responses. */
  lemma DetailExposed(task: Task, m1: Pipeline, m2: Pipeline, req: Request)
    requires req.file.Some? && AllowedFileType(req.file.value.originalName)
    requires var call := Call(req.file.value.path, RouteOptions(task), true);
      m1(call).Err? && m2(call).Err? && m1(call).message != m2(call).message
    ensures Reply(Handle(task, Some(m1), req)) != Reply(Handle(task, Some(m2), req))
  {
  }

  /**
   Cleanup happens on success only: a failed call leaves every staged path in
   place, a successful one removes exactly the request's staged path.
   */
  lemma CleanupOnSuccessOnly(task: Task, model: Pipeline, file: UploadedFile, staged: set<string>)
    requires AllowedFileType(file.originalName)
    ensures var t := Handle(task, Some(model), Request(Some(file)));
      && (model(Call(file.path, RouteOptions(task), true)).Err? ==> StagedAfter(staged, t) == staged)
      && (model(Call(file.path, RouteOptions(task), true)).Ok? ==> StagedAfter(staged, t) == staged - {file.path})
  {
  }

  /** `gif` is accepted here, whatever precedes the last dot. */
  lemma AcceptsGif(prefix: string)
    ensures AllowedFileType(prefix + ".gif")
  {
    assert prefix + ".gif" == prefix + [Upload.Dot] + "gif";
    Upload.ExtensionOfLowerCaseTail(prefix, "gif");
    assert AllowedExtensions[3] == "gif";
  }

  /** `webp` is rejected here, whatever precedes the last dot. */
  lemma RejectsWebp(prefix: string)
    ensures !AllowedFileType(prefix + ".webp")
  {
    assert prefix + ".webp" == prefix + [Upload.Dot] + "webp";
    Upload.ExtensionOfLowerCaseTail(prefix, "webp");
  }

  /** The two allow-lists disagree on exactly these two extensions. */
  lemma AllowListsDiffer(prefix: string)
    ensures AllowedFileType(prefix + ".gif") && !Upload.AllowedFileType(Config.AllowedExtensions, prefix + ".gif")
    ensures !AllowedFileType(prefix + ".webp") && Upload.AllowedFileType(Config.AllowedExtensions, prefix + ".webp")
  {
    AcceptsGif(prefix);
    RejectsWebp(prefix);
    Upload.ConfiguredRejects(prefix);
    Upload.ConfiguredAccepts(prefix);
  }

  /** The 400 message lists this server's extensions. */
  lemma InvalidTypeMessageText()
    ensures InvalidTypeMessage == "Invalid file type. Allowed types: png, jpg, jpeg, gif"
  {
  }

  /**
   The task served at `path`: the first registered route whose path matches,
   ignoring letter case and one trailing slash.
   */
  function Dispatch(path: string): (r: Option<Task>)
    ensures r.Some? ==> PathMatches(Path(r.value), path)
    ensures r.None? ==> forall task :: !PathMatches(Path(task), path)
  {
    if PathMatches(Path(Caption), path) then Some(Caption)
    else if PathMatches(Path(ObjectDetection), path) then Some(ObjectDetection)
    else if PathMatches(Path(EmotionDetection), path) then Some(EmotionDetection)
    else if PathMatches(Path(Ocr), path) then Some(Ocr)
    else None
  }

  /** No task's path matches another task's. */
  lemma PathsApart(t1: Task, t2: Task)
    requires t1 != t2
    ensures !PathMatches(Path(t1), Path(t2))
  {
    if {t1, t2} == {ObjectDetection, EmotionDetection} {
      NoMatchAt(Path(t1), Path(t2), 8);
    } else {
      NoMatchByLength(Path(t1), Path(t2));
    }
  }

  /** Every request matching a task's path reaches that task, so no two tasks share a path. */
  lemma PathsDistinct(task: Task, path: string)
    requires PathMatches(Path(task), path)
    ensures Dispatch(path) == Some(task)
  {
    forall other | other != task
      ensures !PathMatches(Path(other), path)
    {
      if PathMatches(Path(other), path) {
        MatchesOverlap(Path(other), Path(task), path);
        PathsApart(other, task);
        PathsApart(task, other);
      }
    }
  }

  /** Letter case and a trailing slash do not matter: `/Generate-Caption/` reaches the caption handler. */
  lemma CaseAndTrailingSlashIgnored()
    ensures Dispatch("/Generate-Caption/") == Some(Caption)
  {
    var requested := "/Generate-Caption/";
    assert Lower(requested) == Path(Caption) + "/" by {
      assert LowerChar('G') == 'g' && LowerChar('C') == 'c';
    }
    PathsDistinct(Caption, requested);
  }

  /**
   The two servers differ on a failing model: routes.js removes the staged
   file and hides the cause, this server keeps the file and returns the cause.
   */
  lemma VariantsDiffer(task: Task, model: Pipeline, file: UploadedFile, msg: string)
    requires Upload.AllowedFileType(Config.AllowedExtensions, file.originalName) && AllowedFileType(file.originalName)
    requires model(Call(file.path, NoOptions, false)).Err?
    requires model(Call(file.path, RouteOptions(task), true)) == Err(msg)
    ensures var req := Request(Some(file));
      var viaRoutes := Routes.ProcessFile(Some(model), req);
      var viaMul := Handle(task, Some(model), req);
      && Removals(viaRoutes, file.path) == 1
      && Reply(viaRoutes) == Some(Sent(StatusServerError, ErrorBody(Routes.FailureMessage)))
      && Removals(viaMul, file.path) == 0
      && Reply(viaMul) == Some(Sent(StatusServerError, ErrorDetails(FailureMessage, EngineFault(msg))))
  {
    NoRemovalsCount(Handle(task, Some(model), Request(Some(file))), file.path);
  }

  /**
   A caption or OCR model that resolves with an empty array: the file is
   unlinked, then reading the first item raises and the client gets a 500.
   */
  lemma EmptyTextOutputFailsAfterCleanup(task: Task, model: Pipeline, file: UploadedFile)
    requires RepliesWithText(task) && AllowedFileType(file.originalName)
    requires model(Call(file.path, RouteOptions(task), true)) == Ok(Output([]))
    ensures var t := Handle(task, Some(model), Request(Some(file)));
      && Removals(t, file.path) == 1
      && Reply(t) == Some(Sent(StatusServerError, ErrorDetails(FailureMessage, MissingFirstItem)))
  {
  }

}
