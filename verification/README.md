# Image-model dispatch backend: a Dafny model

This project models the request-processing core of a small image-inference
backend. An HTTP client uploads one image to a task route such as
`/generate-caption` or `/detect-obj`. The server checks the upload's file
extension and runs the task's inference pipeline on the staged file. It then
answers with the result or an error and removes the staged file.

The backend exists in two variants, and both are modelled:

- **The router variant** (`backend/routes.js`, `backend/models.js`,
  `backend/utils.js`, `backend/config.js`). A registry of pipelines is loaded
  at startup, all-or-nothing. Five POST routes then share one handler,
  `processFile`.
- **The single-file variant** (`backend/mul.js`). Four hand-written handlers,
  each with fixed call options. Cleanup happens on success only, and the
  exception message is echoed to the client.

Modules, one per source component:

- `Strings` (strings.dfy): ASCII lower-casing, split at a separator character,
  join. It also gives an independent "index after the last separator"
  definition, proved equal to the last piece of a split.
- `Config` (config.dfy): the allow-list and the size ceiling of
  `backend/config.js`, and the `PIPELINE_MODELS` registry the loader reads,
  which the configuration does not define.
- `Upload` (upload.dfy): `allowedFileType` and `removeUploadedFile` of
  `backend/utils.js`.
- `Http` (http.dfy): the vocabulary both handlers share. This covers requests,
  pipeline calls and outcomes, JSON bodies, and the trace of observable events
  a handler produces: model invoked, staged path removed, response sent,
  exception raised. It also holds the queries the properties are stated in:
  `Invocations`, `Removals`, `Reply`, `StagedAfter`.
- `Loader` (loader.dfy): `loadModels` of `backend/models.js`. It is a pure fold
  over the registry, with the engine's load as a parameter.
- `Routes` (routes.dfy): `processFile`, the five-route table, dispatch, and
  startup over the configured registry.
- `Mul` (mul.dfy): the single-file variant's allow-list and four handlers.

The model treats three things as abstract:

- A loaded pipeline is a pure function from a call (staged path, options,
  whether a progress callback is passed) to `Ok(output)` or `Err(message)`.
- Files on disk are a set of staged paths. A removal takes the path out of the
  set.
- An exception that escapes a handler is a `Threw` event. It is not a response.
  The event carries the status already set on the response when it was raised.

Behaviour the code has that a reader may not expect, all modelled as written:

- **Invalid extension raises in the router variant.** The router's
  invalid-extension branch builds its message with `allowedFileType.join(", ")`.
  That is a call of `join` on a function, so the branch raises a TypeError
  after `res.status(400)` has run. The client gets a 400 without the JSON body
  (`Routes.ProcessFile`, `Routes.GifUploadRaises`, `Routes.ThrownStatus`).
- **The loaded registry is empty.** `loadModels` iterates
  `config.PIPELINE_MODELS`, but the configuration defines only `MODELS`. The
  loop runs over nothing and startup yields an empty map. Every destructured
  model is then `undefined`, so a valid upload raises when the handler calls
  it, and no route ever invokes a model (`Routes.ShippedServerNeverInvokes`).
- **Early returns leave the staged file behind.** Neither early return of
  `processFile` removes the staged file. In the single-file handlers, the file
  stays behind when the name is disallowed, when the model has not loaded yet
  and when the model call is rejected. Only a
  model call that resolves removes it, including a caption or OCR call that
  resolves with an empty array and then answers 500.
- **The single-file variant echoes exception detail.** Its 500 responses carry
  `details: e.message`, while the router variant answers a fixed message.

## Model

| member | source | states |
|---|---|---|
| Strings.Split | backend/utils.js:6 | `split(".")` yields at least one piece and no piece contains a dot; a name without a dot yields itself alone, so `pop()` takes the whole name |
| Strings.SplitLastIsAfterLastSeparator | backend/utils.js:6 | the piece `pop()` takes is exactly the text after the last dot, as given by an independent right-to-left search for that dot |
| Strings.SplitJoin | backend/utils.js:6 | splitting loses nothing: joining the pieces with the separator gives the original name back |
| Strings.LowerKeepsSegmentStart | backend/utils.js:6 | lower-casing does not move the last dot |
| Upload.Extension | backend/utils.js:6 | the checked extension is the text after the last dot, lower-cased, or the whole name lower-cased when there is no dot; it never contains a dot |
| Upload.AllowedFileType | backend/utils.js:5-8 | a name is accepted if and only if the lower-cased text after its last dot (the whole name when it has none) is in the list |
| Upload.ExtensionIff | backend/utils.js:6 | the extension is `e` if and only if the name ends, case-insensitively, in `e`, and `e` is the whole name or follows a dot |
| Upload.AllowedIff | backend/utils.js:5-8 | a name is accepted if and only if it ends, case-insensitively, in a listed extension that is the whole name or follows a dot |
| Upload.CaseInsensitive | backend/utils.js:6 | lower-casing the whole name first changes neither the extension nor the verdict for any list |
| Upload.OnlyLastSegmentMatters | backend/utils.js:6 | everything up to the last dot is ignored; a dot-free name is its own extension |
| Upload.EmptyExtensionRejected | backend/utils.js:6-7 | an empty name or one ending in a dot has the empty extension and is rejected by a list without an empty entry |
| Upload.ConfiguredAccepts | backend/config.js:3 | with the configured list, any name ending in `.png` or `.webp` is accepted (so `x.exe.png` is) |
| Upload.ConfiguredAcceptsUpperCase | backend/config.js:3 | `.PNG` is accepted like `.png` |
| Upload.ConfiguredAcceptsBareName | backend/utils.js:6 | the bare name `png` is accepted |
| Upload.ConfiguredRejects | backend/config.js:3 | names ending in `.gif`, `.exe` (so `x.png.exe`) or a trailing dot, and the empty name, are rejected |
| Upload.RemoveUploadedFile | backend/utils.js:10-14 | removal takes exactly the given path out of the staged set and reports no failure; a missing path is only logged |
| Http.StagedAfter | backend/utils.js:10-14 | after a handler's trace, a path is still staged if and only if it was staged and the trace never removed it |
| Loader.LoadEach | backend/models.js:11-26 | all-or-nothing: no result if and only if some entry's load fails; otherwise one singleton map per entry, in order, built from that entry's own descriptor |
| Loader.MergeAllKeys | backend/models.js:29-31 | the spread-merge starting from `{}` has exactly the keys of the merged objects |
| Loader.MergeAllLastWins | backend/models.js:29-31 | a key takes its value from the last object in the array that has it |
| Loader.LoadModels | backend/models.js:6-41 | startup aborts with exit code 1 if and only if a registry is present and one of its loads fails; an absent registry gives the empty map |
| Loader.LoadModelsKeys | backend/models.js:16-31 | when startup over a present registry serves, the map's key set equals the registry's key set |
| Loader.LoadModelsValues | backend/models.js:16-20 | with distinct keys, each key maps to the pipeline loaded from its own entry |
| Loader.LoadModelsSize | backend/models.js:29-31 | with distinct keys the merge overwrites nothing: the map has one entry per registry entry |
| Loader.LoadModelsOrderIndependent | backend/models.js:26-31 | any permutation of a registry with distinct keys gives the same startup outcome: the same exit, or the same served map |
| Loader.EmptyRegistryServesNothing | backend/models.js:11-31 | an absent or empty registry starts with no pipelines |
| Routes.ProcessFile | backend/routes.js:16-38 | missing file is 400 before any extension check; a disallowed name raises; an undefined model raises; otherwise one call with the staged path and no options, then exactly one removal of that path, answering the raw output or a fixed 500; on a resolved call the removal precedes the reply |
| Routes.ErrorHidesDetail | backend/routes.js:31-36 | two failing models give identical traces: the exception message never reaches the client |
| Routes.RejectedReplyPrecedesRemoval | backend/routes.js:31-36 | on a rejecting model the fixed 500 is sent first and the staged path is removed once afterwards, so the removal does not precede the reply (unlike either variant's success path) |
| Routes.CleanupOnlyAfterInvocation | backend/routes.js:16-38 | after an invocation the staged path is gone and nothing else changed; without one, the staged set is unchanged |
| Routes.RejectedUploadLeaks | backend/routes.js:19-23 | a staged upload with a disallowed name is still staged afterwards |
| Routes.GifUploadRaises | backend/routes.js:21 | an upload named `….gif` raises as written and gets the 400 allow-list message in the corrected handler |
| Routes.ThrownStatus | backend/routes.js:19-25 | the invalid-type exception leaves a 400 already set, so the error page answers 400; the undefined-model exception leaves no error status, so the page answers 500 |
| Routes.ProcessFileCorrected | backend/routes.js:19-23 | corrected: a disallowed name answers 400 with the joined allow-list, invokes nothing and removes nothing; other branches are unchanged |
| Routes.InvalidTypeMessageText | backend/routes.js:21 | the corrected message is `Invalid file type. Allowed types: png, jpg, jpeg, webp` |
| Routes.RouteTableWellFormed | backend/routes.js:40-58 | five routes; no route's path matches another's, ignoring case and a trailing slash; distinct model keys; `/upscale` reuses the OCR log name |
| Routes.Dispatch | backend/routes.js:40-58 | a match is the first route in registration order whose path matches the request, ignoring letter case and one trailing slash; no match means no route's path matches |
| Routes.DispatchFindsOwnRoute | backend/routes.js:40-58 | when no route's path matches another's, every request matching a route's path reaches that route |
| Routes.Lookup | backend/routes.js:13-14 | destructuring a key the loaded models lack reads as undefined; a present key reads its pipeline |
| Routes.Handle | backend/routes.js:40-58 | a POST has no handler exactly when no route's path matches; otherwise it runs `processFile` of a matching route over the model its key destructures to |
| Routes.ShippedServerNeverInvokes | backend/routes.js:13-25 | as configured, startup yields the empty map for any engine, and no request on any path invokes a model or removes a file; a valid upload raises |
| Routes.StartupWith | backend/models.js:11-31 | corrected: startup over a present registry binds every registry key to a pipeline, or aborts if and only if a load fails |
| Routes.RegisteredRouteInvokes | backend/routes.js:40-58 | with a present registry that loads, a route whose key is registered invokes the pipeline loaded from that key's entry and answers from its outcome |
| Mul.Handle | backend/mul.js:77-236 | missing file and disallowed name answer 400 without invoking; an undefined model answers 500 naming the variable; one call with the route's options (caption `{top_k: 50, max_length: 50}`, detection and emotion `{threshold: 0.9}`, OCR none) and the progress callback; on failure a 500 carrying the exception message and no removal; on success exactly one removal before the reply |
| Mul.SuccessReply | backend/mul.js:103-110 | a resolved call answers 200 with the raw output (detection, emotion) or the first item's generated text (caption, OCR); a caption or OCR output without a first item answers 500 with the raised detail |
| Mul.AllowedFileType | backend/mul.js:66-69 | a name is accepted if and only if the lower-cased text after its last dot is `png`, `jpg`, `jpeg` or `gif` |
| Mul.DetailExposed | backend/mul.js:111-117 | two failures with different messages give different replies |
| Mul.CleanupOnSuccessOnly | backend/mul.js:89-118 | a failed call leaves the staged set unchanged; a successful one removes exactly the request's path |
| Mul.EmptyTextOutputFailsAfterCleanup | backend/mul.js:103-110 | a caption or OCR model resolving with an empty array: the file is unlinked, then reading `[0]` raises and the client gets a 500 |
| Mul.AcceptsGif | backend/mul.js:13 | any name ending in `.gif` is accepted here |
| Mul.RejectsWebp | backend/mul.js:13 | any name ending in `.webp` is rejected here |
| Mul.AllowListsDiffer | backend/mul.js:66-69 | the two variants' lists give opposite verdicts on `.gif` and `.webp` |
| Mul.InvalidTypeMessageText | backend/mul.js:83-87 | the 400 message is `Invalid file type. Allowed types: png, jpg, jpeg, gif` |
| Mul.Dispatch | backend/mul.js:77-199 | a path that dispatches to a task matches that task's path, ignoring letter case and one trailing slash; no task is found only when no task's path matches |
| Mul.PathsDistinct | backend/mul.js:77-199 | every request matching a task's path reaches that task, so no two tasks share a path |
| Mul.CaseAndTrailingSlashIgnored | backend/mul.js:7 | `POST /Generate-Caption/` reaches the caption handler, as the default case-insensitive, non-strict routing does |
| Mul.VariantsDiffer | backend/mul.js:111-117 | on a failing model the router variant removes the file and hides the cause, while this variant keeps the file and returns the cause |

## Left out

- The inference engine (`pipeline(...)`) and its weights: a loaded pipeline is
  a pure function from call to outcome. A pipeline whose promise never
  settles, or which answers one call differently at different times, is not
  modelled.
- The upload parser: multipart parsing, the 20 MiB limit (kept only as the
  constants `Config.MaxFileSize` and `Mul.MaxFileSize`) and unique temp-file
  naming. The staged path arrives as part of the request.
- `fs.unlink` runs asynchronously and reports failure through a callback. It
  is modelled as an immediate removal from the staged-path set. The logged
  error appears only as `Removal.errorLogged`.
- The framework's error page for an exception raised out of a handler. Only
  its status is modelled (`Http.ErrorPageStatus`): the status already set, if
  that is an error status, and 500 otherwise. That gives 400 for the
  invalid-type branch and 500 for an undefined model. The page's HTML body is
  not modelled; outside production it shows the stack trace.
- In `processFile`, the `.catch` also catches an exception thrown by
  `res.json(output)` itself. That is an output the framework cannot serialise,
  which is not modelled.
- Concurrency. Loads run concurrently under `Promise.all` and are folded here
  in registry order. The result is the same either way, because the rejection
  carries no data and the merge is order-independent.
- The single-file variant loads its four models one after another while the
  server already listens. That startup race is represented only by each
  handler's model argument being possibly undefined.
- Console logging, including the log name of each route. `process.exit` is
  modelled only as `Aborted(1)`.
- Express/CORS wiring, `app.listen` and the `/health` route (`backend/app.js`).
- The browser client (React components, canvas drawing, chart scaling).
- Strings.Lower: lower-cases ASCII letters only. JavaScript's `toLowerCase` is
  Unicode-aware, but no non-ASCII character lower-cases to a letter of `png`,
  `jpg`, `jpeg`, `webp` or `gif`, so the verdicts agree.
- Http.PathMatches: matches the request's pathname against the route path
  only. Query strings, percent-decoding and the prefix under which the router
  is mounted are not modelled.
- Http.Call: the single-file OCR handler passes its progress callback as the
  second argument, in the options position. The model records this as no
  options plus a progress callback.
- Config.PipelineModels: if the registry were aliased to `MODELS`, its values
  would be plain strings, not `{type, name, options}` records. That
  configuration is not modelled.

## Findings

| source | as written | input that shows it | evidently intended | confidence | as-written member | corrected member |
|---|---|---|---|---|---|---|
| backend/routes.js:21 | the 400 message calls `join` on the function `allowedFileType`, which raises a TypeError | an uploaded file named `a.gif` | answer 400 with `Invalid file type. Allowed types: png, jpg, jpeg, webp`, as backend/mul.js:83-87 does with its own list | not executed; high | Routes.GifUploadRaises | Routes.ProcessFileCorrected |
| backend/models.js:11 | iterates `config.PIPELINE_MODELS`, which backend/config.js does not define, so no model is loaded and every route's model is undefined | any startup, then any upload with an allowed name | iterate a registry that is present, so that each route's key is bound to its loaded pipeline | not executed; high | Routes.ShippedServerNeverInvokes | Routes.StartupWith |
