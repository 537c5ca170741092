/**
 The router of backend/routes.js: five POST routes sharing one handler,
 `processFile`, over the pipelines that `loadModels` produced at startup.
 */
module Routes {
  import opened Optional
  import opened Http
  import opened Upload
  import opened Strings
  import Config
  import Loader

  const NoFileMessage: string := "No file uploaded"
  const FailureMessage: string := "Failed to process image. Please try again."

  /**
   The invalid-type branch interpolates `allowedFileType.join(", ")`, but
   `allowedFileType` is a function: evaluating the message raises a TypeError.
   */
  const JoinOnFunction: Fault := NotAFunction("allowedFileType.join")

  /** Calling a destructured model that `loadModels` did not provide (`undefined`). */
  const UndefinedModel: Fault := NotAFunction("model")

  /**
   `processFile`, as written: missing file, then extension check, then the
   model called with the staged path alone; the staged file is removed once
   the model's promise settles, either way.
   */
  function ProcessFile(model: Option<Pipeline>, req: Request): (t: Trace)
    ensures Invocations(t) <= 1
    ensures req.file.None? ==>
      Reply(t) == Some(Sent(StatusBadRequest, ErrorBody(NoFileMessage))) && Invocations(t) == 0 && NoRemovals(t)
    ensures req.file.Some? && !AllowedFileType(Config.AllowedExtensions, req.file.value.originalName) ==>
      Reply(t) == Some(Threw(StatusBadRequest, JoinOnFunction)) && Invocations(t) == 0 && NoRemovals(t)
    ensures req.file.Some? && AllowedFileType(Config.AllowedExtensions, req.file.value.originalName) && model.None? ==>
      Reply(t) == Some(Threw(StatusOk, UndefinedModel)) && Invocations(t) == 0 && NoRemovals(t)
    ensures Invocations(t) == 1 <==>
      req.file.Some? && AllowedFileType(Config.AllowedExtensions, req.file.value.originalName) && model.Some?
    ensures Invocations(t) == 1 ==>
      var path := req.file.value.path;
      var call := Call(path, NoOptions, false);
      && t[0] == Invoked(call)
      && Removals(t, path) == 1
      && (forall p :: p != path ==> Removals(t, p) == 0)
      && (model.value(call).Ok? ==> RemovedBeforeReply(t, path))
      && Reply(t) == Some(match model.value(call)
                          case Ok(out) => Sent(StatusOk, Raw(out))
                          case Err(_) => Sent(StatusServerError, ErrorBody(FailureMessage)))
  {
    match req.file
    case None => [Sent(StatusBadRequest, ErrorBody(NoFileMessage))]
    case Some(file) =>
      if !AllowedFileType(Config.AllowedExtensions, file.originalName) then [Threw(StatusBadRequest, JoinOnFunction)]
      else match model
        case None => [Threw(StatusOk, UndefinedModel)]
        case Some(pipeline) =>
          var call := Call(file.path, NoOptions, false);
          match pipeline(call)
          case Ok(out) =>
            var t := [Invoked(call), Removed(file.path), Sent(StatusOk, Raw(out))];
            Queries3(t[0], t[1], t[2]);
            assert RemovedBeforeReply(t, file.path) by {
              assert t[1] == Removed(file.path) && !Terminal(t[0]) && !Terminal(t[1]);
            }
            t
          case Err(_) =>
            var t := [Invoked(call), Sent(StatusServerError, ErrorBody(FailureMessage)), Removed(file.path)];
            Queries3(t[0], t[1], t[2]);
            t
  }

  /** A failing model's message never reaches the client: only whether it failed matters. */
  lemma ErrorHidesDetail(m1: Pipeline, m2: Pipeline, req: Request)
    requires req.file.Some?
    requires var call := Call(req.file.value.path, NoOptions, false);
      m1(call).Err? && m2(call).Err?
    ensures ProcessFile(Some(m1), req) == ProcessFile(Some(m2), req)
  {
  }

  /**
   On a rejecting model the 500 goes out before the staged file is unlinked,
   so this variant does not remove the upload before it replies.
   */
  lemma RejectedReplyPrecedesRemoval(model: Pipeline, req: Request)
    requires req.file.Some? && AllowedFileType(Config.AllowedExtensions, req.file.value.originalName)
    requires model(Call(req.file.value.path, NoOptions, false)).Err?
    ensures var t := ProcessFile(Some(model), req);
      && Reply(t) == Some(Sent(StatusServerError, ErrorBody(FailureMessage)))
      && Removals(t, req.file.value.path) == 1
      && !RemovedBeforeReply(t, req.file.value.path)
  {
    var t := ProcessFile(Some(model), req);
    assert |t| == 3 && t[1].Sent? && t[2] == Removed(req.file.value.path) && !t[0].Removed?;
  }

  /**
   Cleanup: once the model has been invoked and its promise has settled, the
   staged file is gone; on both early returns every staged path stays put.
   */
  lemma CleanupOnlyAfterInvocation(model: Option<Pipeline>, req: Request, staged: set<string>)
    ensures var t := ProcessFile(model, req);
      Invocations(t) == 1 ==> StagedAfter(staged, t) == staged - {req.file.value.path}
    ensures var t := ProcessFile(model, req);
      Invocations(t) == 0 ==> StagedAfter(staged, t) == staged
  {
    var t := ProcessFile(model, req);
    if Invocations(t) == 0 {
      assert forall p :: Removals(t, p) == 0 by {
        assert |t| == 1;
      }
    }
  }

  /** A rejected name leaves its staged upload behind. */
  lemma RejectedUploadLeaks(model: Option<Pipeline>, file: UploadedFile, staged: set<string>)
    requires file.path in staged
    requires !AllowedFileType(Config.AllowedExtensions, file.originalName)
    ensures file.path in StagedAfter(staged, ProcessFile(model, Request(Some(file))))
  {
    CleanupOnlyAfterInvocation(model, Request(Some(file)), staged);
  }

  /** The message the invalid-type branch was evidently meant to send. */
  const InvalidTypeMessage: string := "Invalid file type. Allowed types: " + Join(Config.AllowedExtensions, ", ")

  /** `processFile` with the allow-list joined into the 400 message instead of raising. */
  function ProcessFileCorrected(model: Option<Pipeline>, req: Request): (t: Trace)
    ensures req.file.Some? && !AllowedFileType(Config.AllowedExtensions, req.file.value.originalName) ==>
      Reply(t) == Some(Sent(StatusBadRequest, ErrorBody(InvalidTypeMessage))) && Invocations(t) == 0 && NoRemovals(t)
    ensures req.file.None? || AllowedFileType(Config.AllowedExtensions, req.file.value.originalName) ==>
      t == ProcessFile(model, req)
  {
    if req.file.Some? && !AllowedFileType(Config.AllowedExtensions, req.file.value.originalName) then
      [Sent(StatusBadRequest, ErrorBody(InvalidTypeMessage))]
    else ProcessFile(model, req)
  }

  /** The corrected message lists the configured extensions. */
  lemma InvalidTypeMessageText()
    ensures InvalidTypeMessage == "Invalid file type. Allowed types: png, jpg, jpeg, webp"
  {
  }

  /** As written, a `.gif` upload raises instead of answering 400; corrected, it answers 400. */
  lemma GifUploadRaises(model: Option<Pipeline>, prefix: string, path: string)
    ensures var req := Request(Some(UploadedFile(path, prefix + ".gif")));
      && Reply(ProcessFile(model, req)) == Some(Threw(StatusBadRequest, JoinOnFunction))
      && Reply(ProcessFileCorrected(model, req)) == Some(Sent(StatusBadRequest, ErrorBody(InvalidTypeMessage)))
  {
    ConfiguredRejects(prefix);
  }

  /**
   Both exceptions reach the framework's error page: the invalid-type one after
   `res.status(400)` has run, so the page answers 400 without the JSON body;
   the undefined-model one with no status set, so the page answers 500.
   */
  lemma ThrownStatus(model: Option<Pipeline>, file: UploadedFile)
    ensures var r := Reply(ProcessFile(model, Request(Some(file))));
      !AllowedFileType(Config.AllowedExtensions, file.originalName) ==>
        r.Some? && r.value.Threw? && ErrorPageStatus(r.value) == StatusBadRequest
    ensures var r := Reply(ProcessFile(model, Request(Some(file))));
      AllowedFileType(Config.AllowedExtensions, file.originalName) && model.None? ==>
        r.Some? && r.value.Threw? && ErrorPageStatus(r.value) == StatusServerError
  {
  }

  /** One entry of the route table: path, model key, and the name used in log lines. */
  datatype Route = Route(path: string, key: string, logName: string)

  const RouteTable: seq<Route> := [
    Route("/generate-caption", "CAPTION", "Caption"),
    Route("/detect-obj", "OBJECT_DETECTION", "Object Detection"),
    Route("/detect-emo", "EMOTION_DETECTION", "Emotion Detection"),
    Route("/generate-ocr", "OCR", "OCR"),
    Route("/upscale", "UPSCALER", "OCR")
  ]

  /** No route's path matches another's, so no request can reach two routes. */
  predicate DistinctPaths(table: seq<Route>)
  {
    forall i, j :: 0 <= i < j < |table| ==>
      !PathMatches(table[i].path, table[j].path) && !PathMatches(table[j].path, table[i].path)
  }

  predicate DistinctKeys(table: seq<Route>)
  {
    forall i, j :: 0 <= i < j < |table| ==> table[i].key != table[j].key
  }

  /** No route's path matches another's: the lengths differ, except for the two `/detect-` paths. */
  lemma RoutePathsDistinct()
    ensures DistinctPaths(RouteTable)
  {
    var lengths := [17, 11, 11, 13, 8];
    assert forall k :: 0 <= k < |RouteTable| ==> |RouteTable[k].path| == lengths[k];
    forall i, j | 0 <= i < j < |RouteTable|
      ensures !PathMatches(RouteTable[i].path, RouteTable[j].path)
      ensures !PathMatches(RouteTable[j].path, RouteTable[i].path)
    {
      var a, b := RouteTable[i].path, RouteTable[j].path;
      if i == 1 && j == 2 {
        NoMatchAt(a, b, 8);
        NoMatchAt(b, a, 8);
      } else {
        NoMatchByLength(a, b);
        NoMatchByLength(b, a);
      }
    }
  }

  /** The model keys have pairwise different lengths. */
  lemma RouteKeysDistinct()
    ensures DistinctKeys(RouteTable)
  {
    var lengths := [7, 16, 17, 3, 8];
    assert forall k :: 0 <= k < |RouteTable| ==> |RouteTable[k].key| == lengths[k];
  }

  /** The five routes have distinct paths and distinct model keys; `/upscale` borrows the OCR log name. */
  lemma RouteTableWellFormed()
    ensures |RouteTable| == 5
    ensures DistinctPaths(RouteTable) && DistinctKeys(RouteTable)
    ensures RouteTable[4].path == "/upscale" && RouteTable[4].logName == RouteTable[3].logName
  {
    RoutePathsDistinct();
    RouteKeysDistinct();
  }

  /**
   The framework tries routes in registration order and takes the first whose
   path matches the requested one.
   */
  function Dispatch(table: seq<Route>, path: string): (r: Option<Route>)
    ensures r.Some? ==> exists i :: (0 <= i < |table| && table[i] == r.value && PathMatches(table[i].path, path)
      && forall k :: 0 <= k < i ==> !PathMatches(table[k].path, path))
    ensures r.None? ==> forall i :: 0 <= i < |table| ==> !PathMatches(table[i].path, path)
  {
    if |table| == 0 then None
    else if PathMatches(table[0].path, path) then Some(table[0])
    else
      var r := Dispatch(table[1..], path);
      if r.Some? then
        var i :| 0 <= i < |table[1..]| && table[1..][i] == r.value && PathMatches(table[1..][i].path, path)
          && forall k :: 0 <= k < i ==> !PathMatches(table[1..][k].path, path);
        assert table[i + 1] == r.value;
        assert forall k :: 0 <= k < i + 1 ==> !PathMatches(table[k].path, path) by {
          forall k | 0 <= k < i + 1 ensures !PathMatches(table[k].path, path) {
            if k > 0 {
              assert table[k] == table[1..][k - 1];
            }
          }
        }
        r
      else
        assert forall i :: 1 <= i < |table| ==> table[i] == table[1..][i - 1];
        r
  }

  /** With distinct paths, every request that matches a route's path reaches that route. */
  lemma {:induction false} DispatchFindsOwnRoute(table: seq<Route>, i: nat, path: string)
    requires DistinctPaths(table) && i < |table|
    requires PathMatches(table[i].path, path)
    ensures Dispatch(table, path) == Some(table[i])
  {
    if i > 0 {
      if PathMatches(table[0].path, path) {
        MatchesOverlap(table[0].path, table[i].path, path);
        assert false;
      }
      assert DistinctPaths(table[1..]) by {
        forall a, b | 0 <= a < b < |table[1..]|
          ensures !PathMatches(table[1..][a].path, table[1..][b].path)
          ensures !PathMatches(table[1..][b].path, table[1..][a].path)
        {
          assert table[1..][a] == table[a + 1] && table[1..][b] == table[b + 1];
        }
      }
      DispatchFindsOwnRoute(table[1..], i - 1, path);
    }
  }

  /** Destructuring the loaded-models object: a missing key reads as `undefined`. */
  function Lookup(models: map<string, Pipeline>, key: string): (r: Option<Pipeline>)
    ensures r.Some? <==> key in models
    ensures r.Some? ==> r.value == models[key]
  {
    if key in models then Some(models[key]) else None
  }

  /**
   A POST to `path`: no handler when no route matches; otherwise the first
   matching route's `processFile` over the model its key destructures to.
   */
  function Handle(models: map<string, Pipeline>, path: string, req: Request): (r: Option<Trace>)
    ensures r.None? <==> forall i :: 0 <= i < |RouteTable| ==> !PathMatches(RouteTable[i].path, path)
    ensures r.Some? ==> exists i :: (0 <= i < |RouteTable| && PathMatches(RouteTable[i].path, path)
      && r.value == ProcessFile(if RouteTable[i].key in models then Some(models[RouteTable[i].key]) else None, req))
  {
    match Dispatch(RouteTable, path)
    case None => None
    case Some(route) => Some(ProcessFile(Lookup(models, route.key), req))
  }

  /** Startup: the module awaits `loadModels` over the configured registry. */
  function Startup(load: Loader.Descriptor -> Loader.LoadResult<Pipeline>): Loader.Startup<Pipeline>
  {
    Loader.LoadModels(Config.PipelineModels, load)
  }

  /**
   As configured, the registry the loader iterates is absent, so startup
   yields no pipelines whatever the engine does, and no route ever invokes a
   model: a valid upload raises when calling the undefined model.
   */
  lemma ShippedServerNeverInvokes(load: Loader.Descriptor -> Loader.LoadResult<Pipeline>, path: string, req: Request)
    ensures Startup(load) == Loader.Serving(map[])
    ensures var h := Handle(map[], path, req);
      h.Some? ==> Invocations(h.value) == 0 && NoRemovals(h.value)
    ensures var h := Handle(map[], path, req);
      h.Some? && req.file.Some? && AllowedFileType(Config.AllowedExtensions, req.file.value.originalName) ==>
        Reply(h.value) == Some(Threw(StatusOk, UndefinedModel))
  {
  }

  /** Startup over a registry that is actually present. */
  function StartupWith(registry: Loader.Registry, load: Loader.Descriptor -> Loader.LoadResult<Pipeline>): (s: Loader.Startup<Pipeline>)
    ensures s.Serving? ==> forall i :: 0 <= i < |registry| ==> registry[i].key in s.models
    ensures s.Aborted? <==> Loader.AnyFails(registry, load)
  {
    Loader.LoadModelsKeys(registry, load);
    Loader.LoadModels(Some(registry), load)
  }

  /**
   With a present registry that loads, a route whose key is registered invokes
   the pipeline loaded from that key's own entry, and its reply follows that
   pipeline's outcome.
   */
  lemma RegisteredRouteInvokes(registry: Loader.Registry, load: Loader.Descriptor -> Loader.LoadResult<Pipeline>,
                               i: nat, j: nat, file: UploadedFile)
    requires Loader.DistinctKeys(registry) && i < |registry| && j < |RouteTable|
    requires RouteTable[j].key == registry[i].key
    requires !Loader.AnyFails(registry, load)
    requires AllowedFileType(Config.AllowedExtensions, file.originalName)
    ensures load(registry[i].descriptor).Loaded?
    ensures var h := Handle(StartupWith(registry, load).models, RouteTable[j].path, Request(Some(file)));
      var call := Call(file.path, NoOptions, false);
      && h.Some? && Invocations(h.value) == 1 && h.value[0] == Invoked(call)
      && Reply(h.value) == Some(match load(registry[i].descriptor).pipeline(call)
                                case Ok(out) => Sent(StatusOk, Raw(out))
                                case Err(_) => Sent(StatusServerError, ErrorBody(FailureMessage)))
  {
    Loader.LoadModelsValues(registry, load);
    RouteTableWellFormed();
    PathMatchesItself(RouteTable[j].path);
    DispatchFindsOwnRoute(RouteTable, j, RouteTable[j].path);
  }

}
