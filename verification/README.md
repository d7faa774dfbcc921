# Reactive forms: validators, form builder and hour slots

A Dafny model of the core of `reactive-forms`, a Stencil port of Angular's reactive forms. It covers:

- **Validators** (`validators.dfy`, module `Validators`):
  - the emptiness tests `isEmptyInputValue` and `hasValidLength`;
  - the built-in validators `min`, `max`, `required`, `requiredTrue`, `email`, `minLength`, `maxLength`, `pattern` and `nullValidator`;
  - the union of error maps (`mergeErrors`);
  - `compose` and `composeAsync`, which turn a list of validators into one;
  - the normalisation of validator objects (`{validate}`) into validator functions.
- **Directive glue** (`shared.dfy`, module `SharedDirectives`): `composeValidators` and `composeAsyncValidators`. Each normalises a list and then composes it.
- **Form builder** (`form_builder.dfy`, module `FormBuilder`):
  - `group`, `control` and `array`;
  - `_reduceControls` and `_createControl`, which read configuration literals;
  - `isAbstractControlOptions`, which picks the unified or the legacy shape of group options.
- **Hour slots** (`hour_slots.dfy`, module `HourSlots`):
  - `getHourOptions`, which lists the `"h:m"` half-hour options after a minimum slot;
  - `getAddedLeftZeroNumber` and `getHourSlotString`, which zero-pad a slot into `hh:mm`.

`values.dfy` holds the shared vocabulary:

- `Wrappers`: `Option` for `null` results and `Result` for thrown errors.
- `JsValues`: the JavaScript values a control's `value` can hold, and the control status enum.

`validator_properties.dfy` proves properties that relate several validators or fix concrete cases.

Modelling choices:

- A validator sees a control only through its `value`, so it is a function `Value -> result`.
- `parseFloat`, the e-mail regular expression, `RegExp.prototype.test` and the regular-expression syntax are not modelled. They are parameters of the functions that use them.
- An asynchronous validator's result is a promise or observable with its single resolved value, or a value of neither kind. The latter makes `composeAsync`'s validator fail with `Expected validator to return Promise or Observable.`
- The form builder's controls are records of the arguments their constructors receive.
- `mergeErrors`, `Validators.pattern`, `_reduceControls` and `getHourOptions` update local state step by step, so they are methods with loops or assignments. Each is proved against a specification function. The `forEach` callback of `getHourOptions` is a method of its own, called once per minute.

## Model

| member | source | states |
|---|---|---|
| Validators.IsEmptyInputValue | src/utils/validators.ts:23-26 | a value is empty exactly when it is `null`, `undefined`, `""`, `[]` or an object whose `length` is 0 |
| Validators.HasValidLength | src/utils/validators.ts:28-31 | a value has a valid length exactly when it is a string, an array or an object with a numeric `length` |
| Validators.IsPresent | src/utils/validators.ts:36-38 | an entry is present exactly when it is neither `null` nor `undefined` |
| Validators.Somes | src/utils/validators.ts:413 | filtering with `isPresent` keeps no more entries than the list has, and leaves none exactly when every entry is `null`/`undefined` |
| Validators.SomesMembers | src/utils/validators.ts:413 | filtering keeps the value of every present entry, and yields nothing that was not a present entry |
| Validators.SomesAppend | src/utils/validators.ts:413 | filtering a concatenation is the concatenation of the filtered parts, so the present values keep their list order |
| Validators.SomesSingle | src/utils/validators.ts:413 | filtering keeps a present entry's value and drops an absent entry |
| Validators.UnionAllKeys | src/utils/validators.ts:40-50 | a key is in the union of the error maps exactly when some non-null entry holds it |
| Validators.UnionAllLastWins | src/utils/validators.ts:40-50 | a key's value in the union comes from the last entry that holds the key |
| Validators.MergeNone | src/utils/validators.ts:40-50 | `mergeErrors` returns `null` exactly when every entry is `null` or has no key |
| Validators.UnionAllSnoc | src/utils/validators.ts:45-47 | adding one more entry at the end extends the union by that entry's keys, which overwrite earlier ones |
| Validators.MergeErrors | src/utils/validators.ts:40-50 | the left-to-right loop over the list computes the union of the non-null maps, or `null` when it has no key |
| Validators.Execute | src/utils/validators.ts:54-56 | one result per validator, in order, each the validator applied to the control |
| Validators.ToObservable | src/utils/validators.ts:62-69 | a promise becomes an observable of its value, an observable is kept, and anything else throws the fixed message |
| Validators.ToObservables | src/utils/validators.ts:438 | mapping `toObservable` over the results throws exactly when some result is neither a promise nor an observable |
| Validators.ForkJoin | src/utils/validators.ts:439 | `forkJoin` yields each observable's value at its own position |
| Validators.Min | src/utils/validators.ts:104-115 | an error exactly when the value is not empty, parses to a number, and that number is below the bound; the error is `{min: {min, actual}}` |
| Validators.Max | src/utils/validators.ts:138-149 | an error exactly when the value is not empty, parses to a number, and that number is above the bound; the error is `{max: {max, actual}}` |
| Validators.Required | src/utils/validators.ts:171-174 | `{required: true}` exactly when the value is empty |
| Validators.RequiredTrue | src/utils/validators.ts:197-200 | no error exactly when the value is `true`; otherwise `{required: true}` |
| Validators.Email | src/utils/validators.ts:238-245 | no error exactly when the value is empty or passes the e-mail test; otherwise `{email: true}` |
| Validators.MinLength | src/utils/validators.ts:277-290 | an error exactly when the value is not empty, has a numeric `length`, and that length is below the bound; the error carries both lengths |
| Validators.MaxLength | src/utils/validators.ts:319-324 | an error exactly when the value has a numeric `length` above the bound, empty values included; the error carries both lengths |
| Validators.Anchor | src/utils/validators.ts:362-370 | the anchored source starts with `^` and ends with `$`; it contains the pattern right after any added `^`; it is one character longer for each anchor the pattern lacks, so `^` and `$` are added only when missing; an anchored pattern is unchanged |
| Validators.RegExpToString | src/utils/validators.ts:373 | a regular expression's text is `/`, its source, `/` and its flags, and both read back from the text |
| Validators.Pattern | src/utils/validators.ts:356-375 | the empty string gives `nullValidator`; a string gives a test against its anchored form, or the `SyntaxError` of `new RegExp` when that form is not a valid regular expression; a regular expression is kept, with its `/source/flags` text as the reported pattern |
| Validators.ApplyPattern | src/utils/validators.ts:376-384 | no error exactly when the value is empty or matches; otherwise `{pattern: {requiredPattern, actualValue}}` |
| Validators.NullValidator | src/utils/validators.ts:394-396 | never reports an error |
| Validators.Compose | src/utils/validators.ts:409-419 | `null` exactly for a `null` list or one without present validators; otherwise `mergeErrors` of the present validators' results |
| Validators.UnionAllPresent | src/utils/validators.ts:413-417 | the union over the filtered validators equals the union over the whole list with `null` results at the absent positions |
| Validators.ComposeInOrder | src/utils/validators.ts:409-419 | the composed validator returns `mergeErrors` of every entry's result in list order |
| Validators.ComposeAsync | src/utils/validators.ts:432-441 | `null` exactly for a `null` list or one without present validators; otherwise a validator whose results `Validators.ComposeAsyncInOrder` states |
| Validators.AsyncPresentFails | src/utils/validators.ts:434-438 | converting the present validators' results fails exactly when some present validator returns neither a promise nor an observable |
| Validators.ComposeAsyncInOrder | src/utils/validators.ts:432-441 | the composed async validator fails, with the fixed message, exactly when some present validator returns neither kind; otherwise it yields the merge of the resolved results in list order |
| Validators.IsValidatorFn | src/utils/validators.ts:58-60 | an entry counts as a validator function exactly when it is nullish or has no `validate` method |
| Validators.NormalizeValidator | src/utils/validators.ts:451-455 | a function is kept as it is; an object becomes a function returning its `validate` result; `null` stays `null` |
| Validators.NormalizeValidators | src/utils/validators.ts:465-467 | one normalised entry per entry, in order |
| Validators.NormalizePreservesResults | src/utils/validators.ts:451-467 | normalising keeps each entry's presence, and what each present entry returns |
| ValidatorProperties.RequiredAcceptsZeroAndFalse | src/utils/validators.ts:171-174 | `0` and `false` pass `required`; `""`, `[]`, `null` and `undefined` fail it |
| ValidatorProperties.MinMaxExclusive | src/utils/validators.ts:104-149 | `min` and `max` with the same bound never both report an error |
| ValidatorProperties.MinThreeExample | src/utils/validators.ts:90-96 | `min(3)` on 2 gives `{min: {min: 3, actual: 2}}` and on 5 gives nothing |
| ValidatorProperties.LengthValidatorsOnEmpty | src/utils/validators.ts:277-324 | `minLength` skips every empty value; `maxLength` with a negative bound rejects `""` |
| ValidatorProperties.AnchorExample | src/utils/validators.ts:362-370 | `'[a-zA-Z ]*'` is anchored to `'^[a-zA-Z ]*$'`, and anchoring is idempotent |
| ValidatorProperties.MergeRequiredAndNull | src/utils/validators.ts:40-50 | merging `{required: true}` with `null` gives `{required: true}` |
| ValidatorProperties.ComposeRequiredEmailOnEmpty | src/utils/validators.ts:409-419 | `compose([required, email])` on `''` gives exactly `{required: true}` |
| ValidatorProperties.ComposeAllAbsent | src/utils/validators.ts:412-414 | a list of only `null` entries composes to `null`, both sync and async |
| SharedDirectives.ComposeValidators | src/utils/directives/shared.ts:24-27 | `null` for a `null` list, and also for a list with no present entries; otherwise a validator |
| SharedDirectives.ComposeValidatorsInOrder | src/utils/directives/shared.ts:24-27 | the result is the merge of every entry's result in list position, where an object contributes its `validate` result |
| SharedDirectives.ComposeAsyncValidators | src/utils/directives/shared.ts:30-35 | `null` for a `null` list, and also for a list with no present entries; otherwise an async validator |
| SharedDirectives.ComposeAsyncValidatorsInOrder | src/utils/directives/shared.ts:30-35 | the async result fails, with the fixed message `Expected validator to return Promise or Observable.`, exactly when some entry returns neither a promise nor an observable; otherwise it is the merge of the resolved results in list position |
| FormBuilder.IsAbstractControlOptions | src/utils/form_builder.ts:26-31 | the unified shape is chosen exactly when one of `asyncValidators`, `validators` or `updateOn` is present and not `undefined` (so `null` counts) |
| FormBuilder.MakeControl | src/utils/form_builder.ts:120-126 | a new form control with exactly the given state and validator arguments |
| FormBuilder.CreateControl | src/utils/form_builder.ts:163-174 | an existing control is returned as it is; an array is read as `[state, validators = null, asyncValidators = null]`; any other value becomes the state of a control without validators |
| FormBuilder.Array | src/utils/form_builder.ts:142-149 | one child per configuration, in order, each created from its configuration; the validator arguments pass through |
| FormBuilder.ReduceControls | src/utils/form_builder.ts:153-159 | the result has exactly the configured names, each mapped to the control created from its configuration |
| FormBuilder.TestComponentGroup | src/components/test-component/test-component.tsx:17-20 | the demo component's `group({textInput: ['', Validators.required], selectPickerInput: ['']})` gives two controls with an empty state, `required` only on `textInput`, `null` async validators, and the default group options |
| FormBuilder.Group | src/utils/form_builder.ts:71-95 | the children are the reduced controls; validators default to `null` and `updateOn` to `undefined`; the unified or the legacy keys are read according to the options' shape, and nullish values fall back to those defaults |
| HourSlots.NatToString | src/components/test-component/test-component.tsx:40 | the decimal text of a number is digits only, has no leading zero, reads back as the number, and is one character exactly below 10 |
| HourSlots.AddedLeftZeroNumber | src/components/test-component/test-component.tsx:68-70 | a number above 9 is its decimal text (digits, no leading zero); any other number, negatives included, is `0` followed by its decimal text (so `-5` gives `0-5`); a non-negative number gives at least two digits that read back as the number, and 0..99 exactly two |
| HourSlots.HourSlotString | src/components/test-component/test-component.tsx:72-74 | for an hour and a minute in 0..99, the text is two digits, `:`, two digits, and the hour and the minute read back from the two digit pairs |
| HourSlots.Label | src/components/test-component/test-component.tsx:40 | the option text has exactly one `:`; the part before it is the hour's decimal text and the part after it the minute's (an optional `-`, then digits without a leading zero), and a non-negative hour and minute read back from the two parts |
| HourSlots.IntToString | src/components/test-component/test-component.tsx:40 | the text of `${i}` is the decimal text of the integer: a `-` for a negative number, then digits without a leading zero that denote its absolute value |
| HourSlots.GetHourOptions | src/components/test-component/test-component.tsx:32-48 | the loop returns the labels of exactly the slots after the first slot whose minute reaches the minimum's minute |
| HourSlots.VisitHour | src/components/test-component/test-component.tsx:38-45 | one `forEach` pass over the minutes 0 and 30 of an hour advances the emitted labels and the flag by that hour's two slots |
| HourSlots.VisitMinute | src/components/test-component/test-component.tsx:39-44 | the callback pushes `${i}:${m}` exactly when the flag is already set, and the flag afterwards says whether the threshold slot has been visited |
| HourSlots.ThresholdIsFirst | src/components/test-component/test-component.tsx:42-44 | the flag is set by the first slot whose minute reaches the minimum's minute, and by no earlier slot |
| HourSlots.VisitSlot | src/components/test-component/test-component.tsx:39-44 | visiting a slot emits it exactly when the flag is already set; the flag, once set, stays set |
| HourSlots.ExpectedInRange | src/components/test-component/test-component.tsx:36-46 | every option's hour lies between the minimum's hour and 23, and its minute is 0 or 30 |
| HourSlots.ExpectedSorted | src/components/test-component/test-component.tsx:36-46 | the options are in strictly increasing (hour, minute) order |
| HourSlots.OptionsDistinct | src/components/test-component/test-component.tsx:36-46 | no option text appears twice |
| HourSlots.LabelInjective | src/components/test-component/test-component.tsx:40 | different slots have different `${i}:${m}` texts |
| HourSlots.ExpectedLength | src/components/test-component/test-component.tsx:36-46 | at most two options per remaining hour, and none when the minimum's hour is 24 or more |
| HourSlots.ExpectedStart | src/components/test-component/test-component.tsx:39-44 | a minute up to 0 starts the options at `hour:30` (47 − 2·hour of them), a minute in 1..30 starts them at `(hour+1):0`, and a later minute gives none |
| HourSlots.DefaultMinimumOptions | src/components/test-component/test-component.tsx:32 | the default minimum `{hour: 0, minute: -1}` gives 47 options, from `0:30` to `23:30` |
| HourSlots.ExampleFromTwentyTwoThirty | src/components/test-component/test-component.tsx:25 | the minimum `{hour: 22, minute: 30}` gives `["23:0", "23:30"]` |
| HourSlots.DefaultMinimumOmitsMidnight | src/components/test-component/test-component.tsx:28-48 | with the default minimum, `0:0` is after the minimum but is not among the options |
| HourSlots.AfterIsStrictlyGreater | src/components/test-component/test-component.tsx:28-31 | the intended result holds exactly the slots strictly after the minimum, in increasing order |
| HourSlots.GetHourOptionsIntended | src/components/test-component/test-component.tsx:28-48 | the loop with the flag set before the push returns the labels of exactly the slots strictly after the minimum |
| HourSlots.LateMinuteOmitsLaterHours | src/components/test-component/test-component.tsx:42 | for a minimum in hours 0..22 with a minute in 31..59, the code as written gives no options, though the next hour's `:0` slot is after the minimum and starts the intended result |
| HourSlots.VisitMinuteIntended | src/components/test-component/test-component.tsx:39-44 | with the flag update moved before the push and set by any slot after the minimum, a slot is pushed exactly when it is strictly after the minimum |

## Findings

| source | as written | input that shows it | evidently intended | confidence | as-written member | corrected member |
|---|---|---|---|---|---|---|
| src/components/test-component/test-component.tsx:28-47 | the push condition is read before the flag is set, so the first slot at or after the minimum's minute is never emitted, even when it lies strictly after the minimum | the default minimum `{hour: 0, minute: -1}`: `0:00` lies after `0:-1`, but the options start at `0:30` | every slot greater than the minimum, as the doc comment says; the default minute of −1 only makes sense if `0:00` is included | medium, not executed | HourSlots.DefaultMinimumOmitsMidnight | HourSlots.GetHourOptionsIntended |
| src/components/test-component/test-component.tsx:42 | the flag test `i >= minimHourSlot.hour && m >= minimHourSlot.minute` always passes its hour half, because `i` starts at the minimum's hour, so only minutes are compared and a minimum after the half hour never sets the flag | `{hour: 10, minute: 45}`: no options at all, although `11:0` lies after `10:45` | every slot greater than the minimum, with hours compared before minutes | medium, not executed | HourSlots.LateMinuteOmitsLaterHours | HourSlots.GetHourOptionsIntended |

`HourSlots.GetHourOptions` and the `Expected*` lemmas model the code as written. `HourSlots.GetHourOptionsIntended` and `HourSlots.After` model the behaviour the doc comment promises: its `forEach` callback (`HourSlots.VisitMinuteIntended`) corrects both rows, setting the flag before the push and by any slot strictly after the minimum.

## Left out

- The e-mail regular expression, `RegExp.prototype.test`, the regular-expression syntax that `new RegExp` checks, and `parseFloat` are not modelled. They are function parameters, because the model has no regular-expression engine or number parser. `parseFloat` returning `None` stands for NaN.
- Resetting `lastIndex` before `test` has no effect in the model, because `test` is a pure parameter there.
- Numbers are reals: IEEE rounding, NaN, infinities and `-0` are not modelled.
- Strings are sequences of Dafny characters, one per Unicode scalar value, not per UTF-16 code unit. The model's `length` of a string counts a character outside the Basic Multilingual Plane once, where JavaScript counts two.
- Validators.MinLength, Validators.MaxLength: the length they compare is not JavaScript's for a string holding a character outside the Basic Multilingual Plane, because of the character model above.
- Timing in `composeAsync` is not modelled. A promise or observable is its single resolved value, so `from`, `forkJoin` and `map` become ordinary functions. Observables that emit no value, several values or an error, and the order of subscription, are not modelled.
- `Validators.min` and `Validators.max` take a number bound, so the `isEmptyInputValue(min)` check never holds. The check is kept in the body but cannot fire, and a `null` bound is not modelled.
- Validators.Pattern: a `null` or `undefined` argument (falsy, so it gives `nullValidator`) is not modelled. The argument is a string or a regular expression, and the only falsy case is `""`.
- Validators.NormalizeValidator: a function that also carries a `validate` property is not modelled. `isValidatorFn` would treat it as an object; the model's entries are either functions or objects.
- Validator lists write `null` and `undefined` both as `None`, because there the source tests entries only with `!= null`. Validator arguments inside group options are builder values, which keep `null` and `undefined` apart, as the `!== undefined` tests of `isAbstractControlOptions` do.
- The control classes (`FormControl`, `FormGroup`, `FormArray` in `src/utils/model.ts`) are not part of this model. Controls are records of their constructor arguments, so the control tree, value and status propagation, and `updateValueAndValidity` are not modelled.
- The control status enum (`VALID`, `INVALID`, `PENDING`, `DISABLED`) is declared as `JsValues.Status` and carries no behaviour.
- The `instanceof` tests of `_createControl` become the `Ctrl` case of the builder's `Any` datatype. Subclasses and objects that only look like controls are not modelled.
- Object key order in `_reduceControls` is not modelled, because the result is a map.
- The demo component's rendering, `componentWillLoad` wiring and Stencil decorators are not modelled, because they are UI plumbing. Only `getHourOptions`, `getAddedLeftZeroNumber` and `getHourSlotString` are.
- Hours and minutes are integers. Fractional hours and minutes, which a JavaScript number allows, are not modelled.
- The reactive-form component, the debouncer, the form directives other than `shared.ts`, the global type declarations and the build configuration are not part of this model.
