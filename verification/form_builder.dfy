/**
 * The declarative form builder: it turns configuration literals into
 * controls and normalises the two shapes of group options into one.
 *
 * The control classes themselves are not part of this model; a control is
 * the record of the arguments its constructor received.
 */
module FormBuilder {
  import opened Wrappers
  import opened JsValues
  import opened Validators

  /**
   * Anything a caller can put where the builder accepts `any`: plain data,
   * a validator (function or object with `validate`), an existing control,
   * or an array or object literal holding such things.
   */
  datatype Any =
    | Data(v: Value)
    | SyncValidator(sync: Entry<SyncResult>)
    | AsyncValidator(async: Entry<AsyncResult>)
    | Ctrl(control: Control)
    | List(items: seq<Any>)
    | Record(fields: map<string, Any>)

  /** The options object a `FormGroup` is constructed with. */
  datatype GroupOptions = GroupOptions(asyncValidators: Any, updateOn: Any, validators: Any)

  /** A control, as the record of its constructor's arguments. */
  datatype Control =
    | FormControl(formState: Any, validatorOrOpts: Any, asyncValidator: Any)
    | FormGroup(controls: map<string, Control>, options: GroupOptions)
    | FormArray(elements: seq<Control>, validatorOrOpts: Any, asyncValidator: Any)

  /** `undefined` and `null` as builder values. */
  const UndefinedAny: Any := Data(Undefined)
  const NullAny: Any := Data(Null)

  predicate IsUndefinedAny(a: Any) {
    a.Data? && a.v.Undefined?
  }

  /** `a == null`: `null` or `undefined`. */
  predicate IsNullishAny(a: Any) {
    a.Data? && IsNullish(a.v)
  }

  /** A property read on an object literal: `undefined` for a missing key. */
  function Get(o: map<string, Any>, key: string): (r: Any)
    ensures key !in o ==> IsUndefinedAny(r)
  {
    if key in o then o[key] else UndefinedAny
  }

  /** `Array.isArray`. */
  predicate IsArray(a: Any) {
    (a.Data? && a.v.Arr?) || a.List?
  }

  /** The elements of an array. */
  function Elements(a: Any): (r: seq<Any>)
    requires IsArray(a)
    ensures a.List? ==> r == a.items
    ensures a.Data? ==> |r| == |a.v.items| && forall i :: 0 <= i < |r| ==> r[i] == Data(a.v.items[i])
  {
    if a.List? then a.items
    else seq(|a.v.items|, i requires 0 <= i < |a.v.items| => Data(a.v.items[i]))
  }

  /** `a[i]` on an array: `undefined` past its end. */
  function At(a: Any, i: nat): (r: Any)
    requires IsArray(a)
    ensures i < |Elements(a)| ==> r == Elements(a)[i]
    ensures i >= |Elements(a)| ==> r == UndefinedAny
  {
    if i < |Elements(a)| then Elements(a)[i] else UndefinedAny
  }

  /** The keys of the unified options shape (`AbstractControlOptions`). */
  predicate IsUnifiedKey(key: string) {
    key == "asyncValidators" || key == "validators" || key == "updateOn"
  }

  /**
   * `isAbstractControlOptions`: some unified key is set to anything other
   * than `undefined` (so `null` still selects the unified shape).
   */
  predicate IsAbstractControlOptions(options: map<string, Any>)
    ensures IsAbstractControlOptions(options) <==>
      exists key :: key in options && IsUnifiedKey(key) && !IsUndefinedAny(options[key])
  {
    || !IsUndefinedAny(Get(options, "asyncValidators"))
    || !IsUndefinedAny(Get(options, "validators"))
    || !IsUndefinedAny(Get(options, "updateOn"))
  }

  /** `FormBuilder.control`: a new `FormControl` with exactly the given arguments. */
  function MakeControl(formState: Any, validatorOrOpts: Any, asyncValidator: Any): (r: Control)
    ensures r.FormControl?
    ensures r.formState == formState && r.validatorOrOpts == validatorOrOpts && r.asyncValidator == asyncValidator
  {
    FormControl(formState, validatorOrOpts, asyncValidator)
  }

  /**
   * `FormBuilder._createControl`: an existing control is returned as it is;
   * an array is read as `[value, validators?, asyncValidators?]`; anything
   * else becomes the state of a new control without validators.
   */
  function CreateControl(controlConfig: Any): (r: Control)
    ensures controlConfig.Ctrl? ==> r == controlConfig.control
    ensures !controlConfig.Ctrl? ==> r.FormControl?
    ensures !controlConfig.Ctrl? && IsArray(controlConfig) ==>
      var items := Elements(controlConfig);
      && r.formState == (if |items| > 0 then items[0] else UndefinedAny)
      && r.validatorOrOpts == (if |items| > 1 then items[1] else NullAny)
      && r.asyncValidator == (if |items| > 2 then items[2] else NullAny)
    ensures !controlConfig.Ctrl? && !IsArray(controlConfig) ==>
      r.formState == controlConfig && IsUndefinedAny(r.validatorOrOpts) && IsUndefinedAny(r.asyncValidator)
  {
    if controlConfig.Ctrl? then controlConfig.control
    else if IsArray(controlConfig) then
      var value := At(controlConfig, 0);
      var validator := if |Elements(controlConfig)| > 1 then At(controlConfig, 1) else NullAny;
      var asyncValidator := if |Elements(controlConfig)| > 2 then At(controlConfig, 2) else NullAny;
      MakeControl(value, validator, asyncValidator)
    else MakeControl(controlConfig, UndefinedAny, UndefinedAny)
  }

  /** `FormBuilder.array`: one child per configuration, in order; the validator arguments pass through. */
  function Array(controlsConfig: seq<Any>, validatorOrOpts: Any, asyncValidator: Any): (r: Control)
    ensures r.FormArray?
    ensures |r.elements| == |controlsConfig|
    ensures forall i :: 0 <= i < |controlsConfig| ==> r.elements[i] == CreateControl(controlsConfig[i])
    ensures r.validatorOrOpts == validatorOrOpts && r.asyncValidator == asyncValidator
  {
    var controls := seq(|controlsConfig|, i requires 0 <= i < |controlsConfig| => CreateControl(controlsConfig[i]));
    FormArray(controls, validatorOrOpts, asyncValidator)
  }

  /** `FormBuilder._reduceControls`: fills a fresh dictionary, one control per configured name. */
  method ReduceControls(controlsConfig: map<string, Any>) returns (controls: map<string, Control>)
    ensures controls.Keys == controlsConfig.Keys
    ensures forall name :: name in controlsConfig ==> controls[name] == CreateControl(controlsConfig[name])
  {
    controls := map[];
    var names := controlsConfig.Keys;
    while names != {}
      invariant names <= controlsConfig.Keys
      invariant controls.Keys == controlsConfig.Keys - names
      invariant forall name :: name in controls ==> controls[name] == CreateControl(controlsConfig[name])
      decreases |names|
    {
      var name :| name in names;
      controls := controls[name := CreateControl(controlsConfig[name])];
      names := names - {name};
    }
  }

  /** `out` is `source` when `source` is not nullish, and `fallback` when it is. */
  ghost predicate CopiedOr(out: Any, source: Any, fallback: Any) {
    if IsNullishAny(source) then out == fallback else out == source
  }

  /**
   * `FormBuilder.group`: builds the children and normalises the options,
   * given in the unified or the legacy shape, into one options record.
   * `None` stands for `null` or omitted options.
   */
  method Group(controlsConfig: map<string, Any>, options: Option<map<string, Any>>) returns (group: Control)
    ensures group.FormGroup?
    ensures group.controls.Keys == controlsConfig.Keys
    ensures forall name :: name in controlsConfig ==> group.controls[name] == CreateControl(controlsConfig[name])
    ensures !IsUndefinedAny(group.options.validators) && !IsUndefinedAny(group.options.asyncValidators)
    ensures !(group.options.updateOn == NullAny)
    ensures options.None? ==> group.options == GroupOptions(NullAny, UndefinedAny, NullAny)
    ensures options.Some? && IsAbstractControlOptions(options.value) ==>
      var o := options.value;
      && CopiedOr(group.options.validators, Get(o, "validators"), NullAny)
      && CopiedOr(group.options.asyncValidators, Get(o, "asyncValidators"), NullAny)
      && CopiedOr(group.options.updateOn, Get(o, "updateOn"), UndefinedAny)
    ensures options.Some? && !IsAbstractControlOptions(options.value) ==>
      var o := options.value;
      && CopiedOr(group.options.validators, Get(o, "validator"), NullAny)
      && CopiedOr(group.options.asyncValidators, Get(o, "asyncValidator"), NullAny)
      && group.options.updateOn == UndefinedAny
  {
    var controls := ReduceControls(controlsConfig);
    var validators := NullAny;
    var asyncValidators := NullAny;
    var updateOn := UndefinedAny;
    if options.Some? {
      var o := options.value;
      if IsAbstractControlOptions(o) {
        validators := if !IsNullishAny(Get(o, "validators")) then Get(o, "validators") else NullAny;
        asyncValidators := if !IsNullishAny(Get(o, "asyncValidators")) then Get(o, "asyncValidators") else NullAny;
        updateOn := if !IsNullishAny(Get(o, "updateOn")) then Get(o, "updateOn") else UndefinedAny;
      } else {
        validators := if !IsNullishAny(Get(o, "validator")) then Get(o, "validator") else NullAny;
        asyncValidators := if !IsNullishAny(Get(o, "asyncValidator")) then Get(o, "asyncValidator") else NullAny;
      }
    }
    group := FormGroup(controls, GroupOptions(asyncValidators, updateOn, validators));
  }

  /**
   * The demo component's form: `group({textInput: ['', Validators.required],
   * selectPickerInput: ['']})` gives two controls with an empty state, only
   * `textInput` carrying the `required` validator, and default group options.
   */
  method TestComponentGroup() returns (group: Control)
    ensures group == FormGroup(
      map[
        "textInput" := FormControl(Data(Str("")), SyncValidator(Fn(Required)), NullAny),
        "selectPickerInput" := FormControl(Data(Str("")), NullAny, NullAny)],
      GroupOptions(NullAny, UndefinedAny, NullAny))
  {
    var required := SyncValidator(Fn(Required));
    var config := map[
      "textInput" := List([Data(Str("")), required]),
      "selectPickerInput" := List([Data(Str(""))])];
    group := Group(config, None);
    assert group.controls.Keys == {"textInput", "selectPickerInput"};
    assert group.controls["textInput"] == FormControl(Data(Str("")), required, NullAny);
    assert group.controls["selectPickerInput"] == FormControl(Data(Str("")), NullAny, NullAny);
  }

}
