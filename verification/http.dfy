/**
 The vocabulary shared by both request handlers: what a request carries, what
 an inference pipeline is called with and settles to, and the trace of
 observable events a handler produces (model invoked, staged file removed,
 response sent, exception raised), with the queries the properties are stated in.
 */
module Http {
  import opened Optional
  import opened Strings
  import Upload

  /** One element of a pipeline's array output; only `generated_text` is inspected. */
  datatype Item = Item(generatedText: Option<string>)

  /** A pipeline's result, otherwise opaque to the handlers. */
  datatype Output = Output(items: seq<Item>)

  /** How a pipeline call settles: resolved with an output or rejected with an error message. */
  datatype Outcome = Ok(output: Output) | Err(message: string)

  /** The second argument of a pipeline call. */
  datatype Options = NoOptions | Generation(topK: nat, maxLength: nat) | Threshold(threshold: real)

  /** A pipeline call: the staged file path, its options and whether a progress callback is passed. */
  datatype Call = Call(path: string, options: Options, progressHook: bool)

  /** A loaded inference pipeline, abstracted as what each call settles to. */
  type Pipeline = Call -> Outcome

  /** An exception: the engine's own, calling a value that is not a function, or reading `[0]` of an empty output. */
  datatype Fault = EngineFault(message: string) | NotAFunction(callee: string) | MissingFirstItem

  /** A JSON response body. */
  datatype Body =
    | ErrorBody(error: string)
    | ErrorDetails(error: string, details: Fault)
    | Raw(output: Output)
    | TextResult(text: Option<string>)  // `{text, status: "success"}`; an undefined `text` is dropped

  /** What a handler does, in order. */
  datatype Event =
    | Invoked(call: Call)
    | Removed(path: string)
    | Sent(status: nat, body: Body)
    | Threw(statusSet: nat, fault: Fault)   // raised out of the handler, with the status already set on the response

  /** The uploaded file as the upload parser hands it over. */
  datatype UploadedFile = UploadedFile(path: string, originalName: string)

  /** A request; `file` is absent when no `file` field was uploaded. */
  datatype Request = Request(file: Option<UploadedFile>)

  type Trace = seq<Event>

  const StatusOk: nat := 200
  const StatusBadRequest: nat := 400
  const StatusServerError: nat := 500

  /**
   The status of the framework's default error page for an exception raised
   out of a handler: the exception carries no status of its own, so the page
   keeps the status already set when that is an error status, and uses 500
   otherwise.
   */
  function ErrorPageStatus(e: Event): (status: nat)
    requires e.Threw?
    ensures 400 <= status <= 599
    ensures 400 <= e.statusSet <= 599 ==> status == e.statusSet
    ensures e.statusSet < 400 ==> status == StatusServerError
  {
    if 400 <= e.statusSet <= 599 then e.statusSet else StatusServerError
  }

  /** How many times a model was invoked. */
  function Invocations(t: Trace): nat
  {
    if |t| == 0 then 0 else (if t[0].Invoked? then 1 else 0) + Invocations(t[1..])
  }

  /** How many times `path` was removed. */
  function Removals(t: Trace, path: string): nat
  {
    if |t| == 0 then 0 else (if t[0] == Removed(path) then 1 else 0) + Removals(t[1..], path)
  }

  /** No path at all was removed. */
  predicate NoRemovals(t: Trace)
  {
    forall i :: 0 <= i < |t| ==> !t[i].Removed?
  }

  predicate Terminal(e: Event)
  {
    e.Sent? || e.Threw?
  }

  /** The first response or exception of a trace. */
  function Reply(t: Trace): (r: Option<Event>)
    ensures r.Some? ==> Terminal(r.value) && r.value in t
    ensures r.None? ==> forall i :: 0 <= i < |t| ==> !Terminal(t[i])
  {
    if |t| == 0 then None
    else if Terminal(t[0]) then Some(t[0])
    else Reply(t[1..])
  }

  /**
   `path` is removed before the first response or exception, and the trace
   does reach one.
   */
  predicate RemovedBeforeReply(t: Trace, path: string)
  {
    && Reply(t).Some?
    && exists i :: 0 <= i < |t| && t[i] == Removed(path) && forall k :: 0 <= k <= i ==> !Terminal(t[k])
  }

  /**
   Express's default matching of a literal route path (routing that is neither
   `caseSensitive` nor `strict`): letter case is ignored and one trailing slash
   is optional.
   */
  predicate PathMatches(route: string, requested: string)
  {
    Lower(requested) == Lower(route) || Lower(requested) == Lower(route) + "/"
  }

  /** A route's own path, with or without a trailing slash, matches it. */
  lemma PathMatchesItself(route: string)
    ensures PathMatches(route, route)
    ensures PathMatches(route, route + "/")
  {
    assert Lower(route + "/") == Lower(route) + "/" by {
      forall i | 0 <= i < |route| + 1
        ensures Lower(route + "/")[i] == (Lower(route) + "/")[i]
      {
        if i < |route| {
          assert (route + "/")[i] == route[i];
        }
      }
    }
  }

  /** Paths whose lengths differ by anything but zero or a trailing slash never match. */
  lemma NoMatchByLength(route: string, requested: string)
    requires |requested| != |route| && |requested| != |route| + 1
    ensures !PathMatches(route, requested)
  {
  }

  /** Paths that differ, ignoring case, at a position both have never match. */
  lemma NoMatchAt(route: string, requested: string, k: nat)
    requires k < |route| && k < |requested|
    requires LowerChar(route[k]) != LowerChar(requested[k])
    ensures !PathMatches(route, requested)
  {
    assert Lower(requested)[k] != Lower(route)[k];
    assert (Lower(route) + "/")[k] == Lower(route)[k];
  }

  /** A request matched by two routes means one route's path matches the other's. */
  lemma MatchesOverlap(a: string, b: string, requested: string)
    requires PathMatches(a, requested) && PathMatches(b, requested)
    ensures PathMatches(a, b) || PathMatches(b, a)
  {
    var la, lb, lq := Lower(a), Lower(b), Lower(requested);
    if lq == la + "/" && lq == lb + "/" {
      assert la == lq[..|lq| - 1] == lb;
    }
  }

  /** The staged paths left once every removal of the trace has been applied. */
  function StagedAfter(staged: set<string>, t: Trace): (r: set<string>)
    ensures forall p :: p in r <==> p in staged && Removals(t, p) == 0
  {
    if |t| == 0 then staged
    else if t[0].Removed? then StagedAfter(Upload.RemoveUploadedFile(staged, t[0].path).staged, t[1..])
    else StagedAfter(staged, t[1..])
  }

  lemma CountsAppend(a: Trace, b: Trace)
    ensures Invocations(a + b) == Invocations(a) + Invocations(b)
    ensures forall p :: Removals(a + b, p) == Removals(a, p) + Removals(b, p)
  {
    if |a| > 0 {
      assert (a + b)[1..] == a[1..] + b;
      CountsAppend(a[1..], b);
    } else {
      assert a + b == b;
    }
  }

  /** The queries on a three-event trace, event by event. */
  lemma Queries3(a: Event, b: Event, c: Event)
    ensures Invocations([a, b, c]) == Invocations([a]) + Invocations([b]) + Invocations([c])
    ensures forall p :: Removals([a, b, c], p) == Removals([a], p) + Removals([b], p) + Removals([c], p)
    ensures Reply([a, b, c]) == if Terminal(a) then Some(a) else if Terminal(b) then Some(b) else Reply([c])
  {
    assert [a, b, c] == [a] + [b] + [c];
    CountsAppend([a] + [b], [c]);
    CountsAppend([a], [b]);
    assert [a, b, c][1..] == [b, c];
    assert [b, c][1..] == [c];
  }

  /** The queries on a two-event trace, event by event. */
  lemma Queries2(a: Event, b: Event)
    ensures Invocations([a, b]) == Invocations([a]) + Invocations([b])
    ensures forall p :: Removals([a, b], p) == Removals([a], p) + Removals([b], p)
    ensures Reply([a, b]) == if Terminal(a) then Some(a) else Reply([b])
  {
    assert [a, b] == [a] + [b];
    CountsAppend([a], [b]);
    assert [a, b][1..] == [b];
  }

  lemma {:induction false} NoRemovalsCount(t: Trace, path: string)
    requires NoRemovals(t)
    ensures Removals(t, path) == 0
  {
    if |t| > 0 {
      NoRemovalsCount(t[1..], path);
    }
  }

}
