/** The glue the form directives use to turn validator lists into one validator each. */
module SharedDirectives {
  import opened Wrappers
  import opened JsValues
  import opened Validators

  /** `composeValidators`: `null` stays `null`; otherwise normalise, then `Validators.compose`. */
  function ComposeValidators(validators: Option<seq<Option<Entry<SyncResult>>>>): (r: Option<SyncFn>)
    ensures validators.None? ==> r.None?
    ensures validators.Some? ==>
      (r.None? <==> forall i :: 0 <= i < |validators.value| ==> validators.value[i].None?)
  {
    if validators.Some? then Compose(Some(NormalizeValidators(validators.value))) else None
  }

  /** `composeAsyncValidators`: `null` stays `null`; otherwise normalise, then `Validators.composeAsync`. */
  function ComposeAsyncValidators(validators: Option<seq<Option<Entry<AsyncResult>>>>): (r: Option<Value -> Result<SyncResult, string>>)
    ensures validators.None? ==> r.None?
    ensures validators.Some? ==>
      (r.None? <==> forall i :: 0 <= i < |validators.value| ==> validators.value[i].None?)
  {
    if validators.Some? then ComposeAsync(Some(NormalizeValidators(validators.value))) else None
  }

  /** Each entry's result at its position: a function's result, an object's `validate` result, or `null`. */
  function EntryResults(validators: seq<Option<Entry<SyncResult>>>, c: Value): (r: seq<SyncResult>)
    ensures |r| == |validators|
  {
    seq(|validators|, i requires 0 <= i < |validators| =>
      if validators[i].Some? then Run(validators[i].value, c) else None)
  }

  /**
   * The composed validator is the union of every entry's result in the
   * entry's original list position, a validator object contributing its
   * `validate` result and a `null` entry nothing.
   */
  lemma ComposeValidatorsInOrder(validators: seq<Option<Entry<SyncResult>>>, c: Value)
    requires ComposeValidators(Some(validators)).Some?
    ensures ComposeValidators(Some(validators)).value(c) == Merge(EntryResults(validators, c))
  {
    var normalized := NormalizeValidators(validators);
    ComposeInOrder(normalized, c);
    forall i | 0 <= i < |validators|
      ensures SyncResults(normalized, c)[i] == EntryResults(validators, c)[i]
    {
      NormalizePreservesResults(validators, c, i);
    }
    assert SyncResults(normalized, c) == EntryResults(validators, c);
  }

  /** Each async entry's resolved result at its position. */
  function AsyncEntryResults(validators: seq<Option<Entry<AsyncResult>>>, c: Value): (r: seq<SyncResult>)
    ensures |r| == |validators|
  {
    seq(|validators|, i requires 0 <= i < |validators| =>
      if validators[i].Some? then Resolved(Run(validators[i].value, c)) else None)
  }

  /**
   * The composed async validator fails, with the "Promise or Observable"
   * message, exactly when some entry returns neither a promise nor an
   * observable; otherwise it yields the union of the entries' resolved
   * results in their original list positions.
   */
  lemma ComposeAsyncValidatorsInOrder(validators: seq<Option<Entry<AsyncResult>>>, c: Value)
    requires ComposeAsyncValidators(Some(validators)).Some?
    ensures ComposeAsyncValidators(Some(validators)).value(c).Failure? <==>
      exists i :: 0 <= i < |validators| && validators[i].Some? && Run(validators[i].value, c).NotAsync?
    ensures ComposeAsyncValidators(Some(validators)).value(c).Failure? ==>
      ComposeAsyncValidators(Some(validators)).value(c).error == NotAsyncMessage
    ensures ComposeAsyncValidators(Some(validators)).value(c).Success? ==>
      ComposeAsyncValidators(Some(validators)).value(c).value == Merge(AsyncEntryResults(validators, c))
  {
    var normalized := NormalizeValidators(validators);
    ComposeAsyncInOrder(normalized, c);
    forall i | 0 <= i < |validators|
      ensures AsyncResults(normalized, c)[i] == AsyncEntryResults(validators, c)[i]
      ensures (normalized[i].Some? && normalized[i].value(c).NotAsync?) <==>
        (validators[i].Some? && Run(validators[i].value, c).NotAsync?)
    {
      NormalizePreservesResults(validators, c, i);
    }
    assert AsyncResults(normalized, c) == AsyncEntryResults(validators, c);
  }
}
