/** What the transactional settings services share: outcomes, error codes and handler propagation. */
module Transactions {
  import opened Options

  datatype UpdateResult = Changed | Unchanged | Error

  datatype ErrorCode = UpdateFailed | SaveFailed | ApplyFailed | RestoreFailed | HandlerFailed(code: string)

  datatype Outcome = Done(result: UpdateResult) | Failed(code: ErrorCode)

  /** The error of the first handler that fails. */
  function FirstFailure(handlers: seq<Option<string>>): (failure: Option<string>)
    ensures failure.None? ==> forall i :: 0 <= i < |handlers| ==> handlers[i] == None
    ensures failure.Some? ==> exists i :: FailsFirst(handlers, i, failure.value)
  {
    if |handlers| > 0 && handlers[0].Some? then
      assert FailsFirst(handlers, 0, handlers[0].value);
      handlers[0]
    else if |handlers| > 0 then
      var rest := FirstFailure(handlers[1..]);
      assert rest.Some? ==>
               exists i :: FailsFirst(handlers[1..], i, rest.value) && FailsFirst(handlers, i + 1, rest.value);
      rest
    else None
  }

  /** Handler i fails with this error and none before it does. */
  ghost predicate FailsFirst(handlers: seq<Option<string>>, i: int, error: string) {
    0 <= i < |handlers| && handlers[i] == Some(error) && forall j :: 0 <= j < i ==> handlers[j] == None
  }

  /** No two errors come first. */
  lemma OneFirstFailure(handlers: seq<Option<string>>)
    ensures FirstFailure(handlers) == None <==> forall i :: 0 <= i < |handlers| ==> handlers[i] == None
    ensures forall i, code :: FailsFirst(handlers, i, code) ==> FirstFailure(handlers) == Some(code)
  {
  }

  /** Runs the handlers in order and stops at the first that fails; each is given by its error, if any. */
  method InvokeUpdateHandlers(handlers: seq<Option<string>>) returns (failure: Option<string>)
    ensures failure == FirstFailure(handlers)
    ensures failure == None <==> forall i :: 0 <= i < |handlers| ==> handlers[i] == None
    ensures failure.Some? ==> exists i :: FailsFirst(handlers, i, failure.value)
  {
    for i := 0 to |handlers|
      invariant FirstFailure(handlers) == FirstFailure(handlers[i..])
      invariant forall j :: 0 <= j < i ==> handlers[j] == None
    {
      if handlers[i].Some? {
        return handlers[i];
      }
    }
    return None;
  }
}
