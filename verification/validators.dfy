/**
 * The validator library of the form engine: the emptiness tests, the
 * built-in validators, the union of error maps and the composition of
 * synchronous and asynchronous validators.
 *
 * A control is seen by a validator only through its `value`, so a validator
 * is a function from `Value` to a result. The pieces of JavaScript whose
 * behaviour is not part of this model (`parseFloat`, the e-mail regular
 * expression, `RegExp.prototype.test`) are passed in as function parameters.
 */
module Validators {
  import opened Wrappers
  import opened JsValues

  /** The result of a synchronous validator: `null` (`None`) or an error map. */
  type SyncResult = Option<ErrMap>

  /** A synchronous validator function (`ValidatorFn`). */
  type SyncFn = Value -> SyncResult

  // ---------------------------------------------------------------------------
  // Emptiness tests
  // ---------------------------------------------------------------------------

  /** `isEmptyInputValue`: `null`, `undefined`, or a value whose `length` is 0. */
  predicate IsEmptyInputValue(v: Value)
    ensures IsEmptyInputValue(v) <==>
      || v.Null? || v.Undefined?
      || (v.Str? && v.s == [])
      || (v.Arr? && v.items == [])
      || (v.Obj? && "length" in v.fields && v.fields["length"] == Num(0.0))
  {
    IsNullish(v) || LengthProp(v) == Num(0.0)
  }

  /** `hasValidLength`: not nullish, and its `length` is a number. */
  predicate HasValidLength(v: Value)
    ensures HasValidLength(v) <==>
      || v.Str? || v.Arr?
      || (v.Obj? && "length" in v.fields && v.fields["length"].Num?)
  {
    !IsNullish(v) && LengthProp(v).Num?
  }

  // ---------------------------------------------------------------------------
  // Built-in validators (the closures returned by the `Validators` factories,
  // applied to the control's value)
  // ---------------------------------------------------------------------------

  const RequiredError: ErrMap := map["required" := Bool(true)]

  /** `Validators.required` */
  function Required(c: Value): (r: SyncResult)
    ensures r.Some? <==> IsEmptyInputValue(c)
    ensures r.Some? ==> r.value == RequiredError
  {
    if IsEmptyInputValue(c) then Some(RequiredError) else None
  }

  /** `Validators.requiredTrue` */
  function RequiredTrue(c: Value): (r: SyncResult)
    ensures r.None? <==> c == Bool(true)
    ensures r.Some? ==> r.value == RequiredError
  {
    if c == Bool(true) then None else Some(RequiredError)
  }

  /** `Validators.min(bound)`; `parseFloat` gives `None` where JavaScript gives NaN. */
  function Min(bound: real, parseFloat: Value -> Option<real>, c: Value): (r: SyncResult)
    ensures r.Some? <==> !IsEmptyInputValue(c) && parseFloat(c).Some? && parseFloat(c).value < bound
    ensures r.Some? ==> r.value == map["min" := Obj(map["min" := Num(bound), "actual" := c])]
  {
    if IsEmptyInputValue(c) || IsEmptyInputValue(Num(bound)) then None
    else
      match parseFloat(c)
      case None => None
      case Some(x) =>
        if x < bound then Some(map["min" := Obj(map["min" := Num(bound), "actual" := c])]) else None
  }

  /** `Validators.max(bound)`; `parseFloat` gives `None` where JavaScript gives NaN. */
  function Max(bound: real, parseFloat: Value -> Option<real>, c: Value): (r: SyncResult)
    ensures r.Some? <==> !IsEmptyInputValue(c) && parseFloat(c).Some? && parseFloat(c).value > bound
    ensures r.Some? ==> r.value == map["max" := Obj(map["max" := Num(bound), "actual" := c])]
  {
    if IsEmptyInputValue(c) || IsEmptyInputValue(Num(bound)) then None
    else
      match parseFloat(c)
      case None => None
      case Some(x) =>
        if x > bound then Some(map["max" := Obj(map["max" := Num(bound), "actual" := c])]) else None
  }

  /** `Validators.email`; `emailTest` stands for `EMAIL_REGEXP.test`. */
  function Email(emailTest: Value -> bool, c: Value): (r: SyncResult)
    ensures r.None? <==> IsEmptyInputValue(c) || emailTest(c)
    ensures r.Some? ==> r.value == map["email" := Bool(true)]
  {
    if IsEmptyInputValue(c) then None
    else if emailTest(c) then None
    else Some(map["email" := Bool(true)])
  }

  /** `Validators.minLength(minLength)` */
  function MinLength(minLength: real, c: Value): (r: SyncResult)
    ensures r.Some? <==> !IsEmptyInputValue(c) && HasValidLength(c) && LengthProp(c).n < minLength
    ensures r.Some? ==>
      r.value == map["minlength" := Obj(map["requiredLength" := Num(minLength), "actualLength" := LengthProp(c)])]
  {
    if IsEmptyInputValue(c) || !HasValidLength(c) then None
    else if LengthProp(c).n < minLength then
      Some(map["minlength" := Obj(map["requiredLength" := Num(minLength), "actualLength" := LengthProp(c)])])
    else None
  }

  /** `Validators.maxLength(maxLength)`: unlike `minLength`, it does not skip empty values. */
  function MaxLength(maxLength: real, c: Value): (r: SyncResult)
    ensures r.Some? <==> HasValidLength(c) && LengthProp(c).n > maxLength
    ensures r.Some? ==>
      r.value == map["maxlength" := Obj(map["requiredLength" := Num(maxLength), "actualLength" := LengthProp(c)])]
  {
    if HasValidLength(c) && LengthProp(c).n > maxLength then
      Some(map["maxlength" := Obj(map["requiredLength" := Num(maxLength), "actualLength" := LengthProp(c)])])
    else None
  }

  /** `Validators.nullValidator` */
  function NullValidator(c: Value): (r: SyncResult)
    ensures r.None?
  {
    None
  }

  /** A regular-expression object, known by its source text and its flags. */
  datatype RegExp = RegExp(source: string, flags: string)

  /** `RegExp.prototype.toString`: `/source/flags`. */
  function RegExpToString(re: RegExp): (r: string)
    ensures |r| == |re.source| + |re.flags| + 2 && r[0] == '/' && r[|re.source| + 1] == '/'
    ensures r[1..|re.source| + 1] == re.source && r[|re.source| + 2..] == re.flags
  {
    "/" + re.source + "/" + re.flags
  }

  /** The argument of `Validators.pattern`: a string or a regular expression. */
  datatype PatternArg = PatternString(s: string) | PatternRegExp(re: RegExp)

  /** The validator `Validators.pattern` returns: `nullValidator`, or a test against `regex`. */
  datatype PatternValidator = NullPattern | PatternCheck(regex: RegExp, regexStr: string)

  /** `String.prototype.charAt`: the character at `i`, or "" when out of range. */
  function CharAt(s: string, i: int): (r: string)
    ensures 0 <= i < |s| ==> r == [s[i]]
    ensures !(0 <= i < |s|) ==> r == ""
  {
    if 0 <= i < |s| then [s[i]] else ""
  }

  /**
   * The anchored source built from a string pattern: `^` is added in front
   * unless the pattern starts with it, `$` at the end unless it ends with it.
   */
  function Anchor(p: string): (r: string)
    ensures |r| >= 2 && r[0] == '^' && r[|r| - 1] == '$'
    ensures |p| > 0 && p[0] == '^' && p[|p| - 1] == '$' ==> r == p
    ensures |p| > 0 && p[0] == '^' ==> |r| >= |p| && r[..|p|] == p
    ensures !(|p| > 0 && p[0] == '^') ==> |r| > |p| && r[1..|p| + 1] == p
    ensures |r| <= |p| + 2
    ensures |r| == |p| + (if |p| > 0 && p[0] == '^' then 0 else 1) + (if |p| > 0 && p[|p| - 1] == '$' then 0 else 1)
  {
    (if CharAt(p, 0) != "^" then "^" else "") + p + (if CharAt(p, |p| - 1) != "$" then "$" else "")
  }

  /** A falsy pattern argument: only the empty string (a `RegExp` object is truthy). */
  predicate IsFalsyPattern(pattern: PatternArg) {
    pattern.PatternString? && pattern.s == ""
  }

  /**
   * `Validators.pattern(pattern)`: builds `regexStr` step by step, as the
   * source does. `new RegExp` on a source that is not a valid regular
   * expression throws a `SyntaxError`: a `Failure` carrying that source.
   * `isValidSource` stands for the regular-expression syntax.
   */
  method Pattern(pattern: PatternArg, isValidSource: string -> bool) returns (v: Result<PatternValidator, string>)
    ensures IsFalsyPattern(pattern) ==> v == Success(NullPattern)
    ensures pattern.PatternString? && !IsFalsyPattern(pattern) && isValidSource(Anchor(pattern.s)) ==>
      v == Success(PatternCheck(RegExp(Anchor(pattern.s), ""), Anchor(pattern.s)))
    ensures pattern.PatternString? && !IsFalsyPattern(pattern) && !isValidSource(Anchor(pattern.s)) ==>
      v == Failure(Anchor(pattern.s))
    ensures pattern.PatternRegExp? ==> v == Success(PatternCheck(pattern.re, RegExpToString(pattern.re)))
  {
    if IsFalsyPattern(pattern) {
      return Success(NullPattern);
    }
    var regex: RegExp;
    var regexStr: string;
    if pattern.PatternString? {
      var p := pattern.s;
      regexStr := "";
      if CharAt(p, 0) != "^" {
        regexStr := regexStr + "^";
      }
      assert regexStr == (if CharAt(p, 0) != "^" then "^" else "");
      regexStr := regexStr + p;
      if CharAt(p, |p| - 1) != "$" {
        regexStr := regexStr + "$";
      }
      assert regexStr == Anchor(p);
      if !isValidSource(regexStr) {
        return Failure(regexStr);
      }
      regex := RegExp(regexStr, "");
    } else {
      regexStr := RegExpToString(pattern.re);
      regex := pattern.re;
    }
    v := Success(PatternCheck(regex, regexStr));
  }

  /** The validator returned by `Validators.pattern`, applied to a value; `test` stands for `RegExp.prototype.test`. */
  function ApplyPattern(v: PatternValidator, test: (RegExp, Value) -> bool, c: Value): (r: SyncResult)
    ensures v.NullPattern? ==> r.None?
    ensures v.PatternCheck? ==> (r.None? <==> IsEmptyInputValue(c) || test(v.regex, c))
    ensures r.Some? ==>
      r.value == map["pattern" := Obj(map["requiredPattern" := Str(v.regexStr), "actualValue" := c])]
  {
    match v
    case NullPattern => NullValidator(c)
    case PatternCheck(regex, regexStr) =>
      if IsEmptyInputValue(c) then None
      else if test(regex, c) then None
      else Some(map["pattern" := Obj(map["requiredPattern" := Str(regexStr), "actualValue" := c])])
  }

  // ---------------------------------------------------------------------------
  // Union of error maps
  // ---------------------------------------------------------------------------

  /** The keys an entry of `mergeErrors`' argument contributes: none for `null`. */
  function Part(e: SyncResult): ErrMap {
    if e.Some? then e.value else map[]
  }

  /**
   * The shallow union of a list of error maps, skipping `null` entries; on a
   * key that several maps hold, the later map's value wins.
   */
  function UnionAll(es: seq<SyncResult>): ErrMap {
    if es == [] then map[] else Part(es[0]) + UnionAll(es[1..])
  }

  /** What `mergeErrors` returns: the union, or `null` when it has no key. */
  function Merge(es: seq<SyncResult>): SyncResult {
    var u := UnionAll(es);
    if u == map[] then None else Some(u)
  }

  /** A key is in the union exactly when some non-null entry holds it. */
  lemma {:induction false} UnionAllKeys(es: seq<SyncResult>, k: string)
    ensures k in UnionAll(es) <==> exists i :: 0 <= i < |es| && es[i].Some? && k in es[i].value
  {
    if es != [] {
      UnionAllKeys(es[1..], k);
      if k in UnionAll(es[1..]) {
        var i :| 0 <= i < |es[1..]| && es[1..][i].Some? && k in es[1..][i].value;
        assert es[i + 1] == es[1..][i];
      }
      if exists i :: 0 <= i < |es| && es[i].Some? && k in es[i].value {
        var i :| 0 <= i < |es| && es[i].Some? && k in es[i].value;
        if i > 0 {
          assert es[1..][i - 1] == es[i];
        }
      }
    }
  }

  /** The value of a key in the union is the one of the last entry that holds the key. */
  lemma {:induction false} UnionAllLastWins(es: seq<SyncResult>, k: string)
    requires k in UnionAll(es)
    ensures exists j :: (0 <= j < |es| && es[j].Some? && k in es[j].value && UnionAll(es)[k] == es[j].value[k]
                         && forall i :: j < i < |es| ==> es[i].None? || k !in es[i].value)
  {
    assert es != [];
    var rest := es[1..];
    if k in UnionAll(rest) {
      UnionAllLastWins(rest, k);
      var j :| 0 <= j < |rest| && rest[j].Some? && k in rest[j].value && UnionAll(rest)[k] == rest[j].value[k]
        && forall i :: j < i < |rest| ==> rest[i].None? || k !in rest[i].value;
      assert es[j + 1] == rest[j];
      forall i | j + 1 < i < |es|
        ensures es[i].None? || k !in es[i].value
      {
        assert es[i] == rest[i - 1];
      }
    } else {
      UnionAllKeys(rest, k);
      forall i | 0 < i < |es|
        ensures es[i].None? || k !in es[i].value
      {
        assert es[i] == rest[i - 1];
      }
    }
  }

  /** `mergeErrors` returns `null` exactly when every entry is `null` or an empty map. */
  lemma MergeNone(es: seq<SyncResult>)
    ensures Merge(es).None? <==> forall i :: 0 <= i < |es| ==> es[i].None? || es[i].value == map[]
  {
    if Merge(es).None? {
      forall i | 0 <= i < |es| && es[i].Some?
        ensures es[i].value == map[]
      {
        forall k | k in es[i].value
          ensures false
        {
          UnionAllKeys(es, k);
        }
      }
    } else {
      var k :| k in UnionAll(es);
      UnionAllKeys(es, k);
    }
  }

  /** Right-biased union of maps is associative. */
  lemma UnionAssoc(a: ErrMap, b: ErrMap, c: ErrMap)
    ensures (a + b) + c == a + (b + c)
  {
  }

  /** Folding from the left, as `mergeErrors`' loop does, gives the same union. */
  lemma {:induction false} UnionAllSnoc(es: seq<SyncResult>, e: SyncResult)
    ensures UnionAll(es + [e]) == UnionAll(es) + Part(e)
  {
    if es == [] {
      assert es + [e] == [e];
      assert UnionAll([e]) == Part(e) + UnionAll([]);
    } else {
      assert (es + [e])[0] == es[0];
      assert (es + [e])[1..] == es[1..] + [e];
      UnionAllSnoc(es[1..], e);
      UnionAssoc(Part(es[0]), UnionAll(es[1..]), Part(e));
    }
  }

  /** `mergeErrors`: the loop over the list, accumulating the union. */
  method MergeErrors(arrayOfErrors: seq<SyncResult>) returns (r: SyncResult)
    ensures r == Merge(arrayOfErrors)
  {
    var res: ErrMap := map[];
    var i := 0;
    while i < |arrayOfErrors|
      invariant 0 <= i <= |arrayOfErrors|
      invariant res == UnionAll(arrayOfErrors[..i])
    {
      var errors := arrayOfErrors[i];
      res := if errors.Some? then res + errors.value else res;
      assert arrayOfErrors[..i + 1] == arrayOfErrors[..i] + [errors];
      UnionAllSnoc(arrayOfErrors[..i], errors);
      i := i + 1;
    }
    assert arrayOfErrors[..i] == arrayOfErrors;
    r := if res == map[] then None else Some(res);
  }

  // ---------------------------------------------------------------------------
  // Running and composing validators
  // ---------------------------------------------------------------------------

  /** `isPresent`: not `null` and not `undefined`. */
  predicate IsPresent<T>(o: Option<T>): (r: bool)
    ensures r <==> o != None
  {
    o.Some?
  }

  /** `filter(isPresent)`: the present entries, in their order. */
  function Somes<T>(xs: seq<Option<T>>): (r: seq<T>)
    ensures |r| <= |xs|
    ensures |r| == 0 <==> forall i :: 0 <= i < |xs| ==> !IsPresent(xs[i])
  {
    if xs == [] then []
    else
      assert forall i :: 0 < i < |xs| ==> xs[i] == xs[1..][i - 1];
      (if IsPresent(xs[0]) then [xs[0].value] else []) + Somes(xs[1..])
  }

  /** Filtering keeps the value of every present entry, and yields only values of present entries. */
  lemma {:induction false} SomesMembers<T>(xs: seq<Option<T>>)
    ensures forall i :: 0 <= i < |xs| && xs[i].Some? ==> xs[i].value in Somes(xs)
    ensures forall j :: 0 <= j < |Somes(xs)| ==> Some(Somes(xs)[j]) in xs
  {
    if xs != [] {
      SomesCons(xs);
      SomesMembers(xs[1..]);
      assert forall i :: 0 < i < |xs| ==> xs[i] == xs[1..][i - 1];
    }
  }

  /** Filtering a non-empty list: its head's value if present, then the filtered tail. */
  lemma SomesCons<T>(xs: seq<Option<T>>)
    requires xs != []
    ensures xs[0].Some? ==> Somes(xs) == [xs[0].value] + Somes(xs[1..])
    ensures xs[0].None? ==> Somes(xs) == Somes(xs[1..])
  {
  }

  /** Filtering a concatenation filters each part and keeps them in order. */
  lemma {:induction false} SomesAppend<T>(xs: seq<Option<T>>, ys: seq<Option<T>>)
    ensures Somes(xs + ys) == Somes(xs) + Somes(ys)
  {
    if xs == [] {
      assert xs + ys == ys;
    } else {
      var zs := xs + ys;
      assert zs[0] == xs[0] && zs[1..] == xs[1..] + ys;
      SomesAppend(xs[1..], ys);
    }
  }

  /** Filtering keeps a present entry's value and drops an absent one. */
  lemma SomesSingle<T>(x: Option<T>)
    ensures x.Some? ==> Somes([x]) == [x.value]
    ensures x.None? ==> Somes([x]) == []
  {
    assert [x][1..] == [];
  }

  /** `executeValidators`: each validator's result, in the validators' order. */
  function Execute<R>(c: Value, validators: seq<Value -> R>): (r: seq<R>)
    ensures |r| == |validators|
    ensures forall i :: 0 <= i < |validators| ==> r[i] == validators[i](c)
  {
    seq(|validators|, i requires 0 <= i < |validators| => validators[i](c))
  }

  /** `Validators.compose`: `None` stands for a `null` list or a `null` result. */
  function Compose(validators: Option<seq<Option<SyncFn>>>): (r: Option<SyncFn>)
    ensures r.None? <==>
      validators.None? || forall i :: 0 <= i < |validators.value| ==> validators.value[i].None?
    ensures r.Some? ==> forall c :: r.value(c) == Merge(Execute(c, Somes(validators.value)))
  {
    if validators.None? then None
    else
      var present := Somes(validators.value);
      if |present| == 0 then None
      else Some((c: Value) => Merge(Execute(c, present)))
  }

  /** Each validator's result at its position in the list, `null` for an absent validator. */
  function SyncResults(validators: seq<Option<SyncFn>>, c: Value): (r: seq<SyncResult>)
    ensures |r| == |validators|
  {
    seq(|validators|, i requires 0 <= i < |validators| =>
      if validators[i].Some? then validators[i].value(c) else None)
  }

  lemma UnionAllCons(e: SyncResult, es: seq<SyncResult>)
    ensures UnionAll([e] + es) == Part(e) + UnionAll(es)
  {
    assert ([e] + es)[1..] == es;
  }

  lemma ExecuteCons<R>(c: Value, f: Value -> R, fs: seq<Value -> R>)
    ensures Execute(c, [f] + fs) == [f(c)] + Execute(c, fs)
  {
  }

  lemma SyncResultsCons(validators: seq<Option<SyncFn>>, c: Value)
    requires validators != []
    ensures SyncResults(validators, c) ==
      [if validators[0].Some? then validators[0].value(c) else None] + SyncResults(validators[1..], c)
  {
  }

  /** The union over the present validators' results equals the union over the whole list. */
  lemma {:induction false} UnionAllPresent(validators: seq<Option<SyncFn>>, c: Value)
    ensures UnionAll(Execute(c, Somes(validators))) == UnionAll(SyncResults(validators, c))
  {
    if validators != [] {
      var rest := validators[1..];
      SomesCons(validators);
      UnionAllPresent(rest, c);
      SyncResultsCons(validators, c);
      var head := if validators[0].Some? then validators[0].value(c) else None;
      UnionAllCons(head, SyncResults(rest, c));
      if validators[0].Some? {
        var f := validators[0].value;
        var tail := Somes(rest);
        ExecuteCons(c, f, tail);
        UnionAllCons(f(c), Execute(c, tail));
        assert head == f(c);
      }
    }
  }

  /**
   * The composed validator equals the union of every present validator's
   * result taken in list order, an absent validator contributing nothing.
   */
  lemma ComposeInOrder(validators: seq<Option<SyncFn>>, c: Value)
    requires Compose(Some(validators)).Some?
    ensures Compose(Some(validators)).value(c) == Merge(SyncResults(validators, c))
  {
    UnionAllPresent(validators, c);
  }

  // ---------------------------------------------------------------------------
  // Asynchronous validators (results are taken as already resolved)
  // ---------------------------------------------------------------------------

  /** A resolved observable: the last value it emitted. */
  datatype Observable = Observable(emitted: SyncResult)

  /** What an async validator returns: a promise, an observable, or (wrongly) anything else. */
  datatype AsyncResult =
    | PromiseOf(resolved: SyncResult)
    | ObservableOf(stream: Observable)
    | NotAsync(returned: Value)

  /** An asynchronous validator function (`AsyncValidatorFn`). */
  type AsyncFn = Value -> AsyncResult

  const NotAsyncMessage: string := "Expected validator to return Promise or Observable."

  /** `toObservable`: promises become observables, observables stay, anything else throws. */
  function ToObservable(r: AsyncResult): (o: Result<Observable, string>)
    ensures o.Failure? <==> r.NotAsync?
    ensures o.Failure? ==> o.error == NotAsyncMessage
    ensures r.PromiseOf? ==> o == Success(Observable(r.resolved))
    ensures r.ObservableOf? ==> o == Success(r.stream)
  {
    match r
    case PromiseOf(x) => Success(Observable(x))
    case ObservableOf(obs) => Success(obs)
    case NotAsync(_) => Failure(NotAsyncMessage)
  }

  /** `.map(toObservable)`: throws as soon as one result is neither kind. */
  function ToObservables(rs: seq<AsyncResult>): (r: Result<seq<Observable>, string>)
    ensures r.Failure? <==> exists i :: 0 <= i < |rs| && rs[i].NotAsync?
    ensures r.Failure? ==> r.error == NotAsyncMessage
    ensures r.Success? ==> |r.value| == |rs| && forall i :: 0 <= i < |rs| ==> Success(r.value[i]) == ToObservable(rs[i])
  {
    if rs == [] then Success([])
    else
      assert forall i :: 0 < i < |rs| ==> rs[i] == rs[1..][i - 1];
      match ToObservable(rs[0])
      case Failure(e) => Failure(e)
      case Success(o) =>
        match ToObservables(rs[1..])
        case Failure(e) => Failure(e)
        case Success(os) => Success([o] + os)
  }

  /** `forkJoin`: the last value of each observable, in order. */
  function ForkJoin(observables: seq<Observable>): (r: seq<SyncResult>)
    ensures |r| == |observables|
    ensures forall i :: 0 <= i < |observables| ==> r[i] == observables[i].emitted
  {
    seq(|observables|, i requires 0 <= i < |observables| => observables[i].emitted)
  }

  /** `Validators.composeAsync`; a thrown error is a `Failure` of the composed validator. */
  function ComposeAsync(validators: Option<seq<Option<AsyncFn>>>): (r: Option<Value -> Result<SyncResult, string>>)
    ensures r.None? <==>
      validators.None? || forall i :: 0 <= i < |validators.value| ==> validators.value[i].None?
  {
    if validators.None? then None
    else
      var present := Somes(validators.value);
      if |present| == 0 then None
      else Some((c: Value) =>
        match ToObservables(Execute(c, present))
        case Failure(e) => Failure(e)
        case Success(observables) => Success(Merge(ForkJoin(observables))))
  }

  /** The value an async result resolves to; `null` for one that is neither kind. */
  function Resolved(r: AsyncResult): SyncResult {
    match r
    case PromiseOf(x) => x
    case ObservableOf(obs) => obs.emitted
    case NotAsync(_) => None
  }

  /** Each async validator's resolved result at its position in the list. */
  function AsyncResults(validators: seq<Option<AsyncFn>>, c: Value): (r: seq<SyncResult>)
    ensures |r| == |validators|
  {
    seq(|validators|, i requires 0 <= i < |validators| =>
      if validators[i].Some? then Resolved(validators[i].value(c)) else None)
  }

  /** Some present async validator returns something that is neither a promise nor an observable. */
  predicate SomeNotAsync(validators: seq<Option<AsyncFn>>, c: Value) {
    exists i :: 0 <= i < |validators| && validators[i].Some? && validators[i].value(c).NotAsync?
  }

  lemma SomeNotAsyncCons(validators: seq<Option<AsyncFn>>, c: Value)
    requires validators != []
    ensures SomeNotAsync(validators, c) <==>
      (validators[0].Some? && validators[0].value(c).NotAsync?) || SomeNotAsync(validators[1..], c)
  {
    var rest := validators[1..];
    if SomeNotAsync(rest, c) {
      var i :| 0 <= i < |rest| && rest[i].Some? && rest[i].value(c).NotAsync?;
      assert validators[i + 1] == rest[i];
    }
    if SomeNotAsync(validators, c) {
      var i :| 0 <= i < |validators| && validators[i].Some? && validators[i].value(c).NotAsync?;
      if i > 0 {
        assert rest[i - 1] == validators[i];
      }
    }
  }

  /** Running the present validators and the whole list agree on the first element and the rest. */
  lemma ExecuteSomesCons<R>(validators: seq<Option<Value -> R>>, c: Value)
    requires validators != []
    ensures validators[0].Some? ==>
      var ex := Execute(c, Somes(validators));
      |ex| > 0 && ex[0] == validators[0].value(c) && ex[1..] == Execute(c, Somes(validators[1..]))
    ensures validators[0].None? ==> Somes(validators) == Somes(validators[1..])
  {
    if validators[0].Some? {
      var tail := Somes(validators[1..]);
      var fs := [validators[0].value] + tail;
      assert Somes(validators) == fs;
      var ex := Execute(c, fs);
      assert |ex| == |fs|;
      assert fs[1..] == tail;
      assert ex[0] == fs[0](c);
      forall i | 0 <= i < |tail|
        ensures ex[1..][i] == Execute(c, tail)[i]
      {
        assert fs[i + 1] == tail[i];
      }
    }
  }

  lemma {:induction false} AsyncPresentFails(validators: seq<Option<AsyncFn>>, c: Value)
    ensures ToObservables(Execute(c, Somes(validators))).Failure? <==> SomeNotAsync(validators, c)
  {
    if validators != [] {
      AsyncPresentFails(validators[1..], c);
      SomeNotAsyncCons(validators, c);
      ExecuteSomesCons(validators, c);
    }
  }

  /** What each of a list of async results resolves to, in order. */
  function ResolvedAll(rs: seq<AsyncResult>): (r: seq<SyncResult>)
    ensures |r| == |rs|
  {
    seq(|rs|, i requires 0 <= i < |rs| => Resolved(rs[i]))
  }

  /** When no result throws, `forkJoin` yields what each result resolves to. */
  lemma ForkJoinResolved(rs: seq<AsyncResult>)
    requires ToObservables(rs).Success?
    ensures ForkJoin(ToObservables(rs).value) == ResolvedAll(rs)
  {
    var fj := ForkJoin(ToObservables(rs).value);
    forall i | 0 <= i < |rs|
      ensures fj[i] == ResolvedAll(rs)[i]
    {
      assert Success(ToObservables(rs).value[i]) == ToObservable(rs[i]);
    }
  }

  lemma ResolvedAllCons(r: AsyncResult, rs: seq<AsyncResult>)
    ensures ResolvedAll([r] + rs) == [Resolved(r)] + ResolvedAll(rs)
  {
  }

  lemma AsyncResultsCons(validators: seq<Option<AsyncFn>>, c: Value)
    requires validators != []
    ensures AsyncResults(validators, c) ==
      [if validators[0].Some? then Resolved(validators[0].value(c)) else None] + AsyncResults(validators[1..], c)
  {
  }

  /** The union over the present validators' resolved results equals the union over the whole list. */
  lemma {:induction false} ResolvedPresent(validators: seq<Option<AsyncFn>>, c: Value)
    ensures UnionAll(ResolvedAll(Execute(c, Somes(validators)))) == UnionAll(AsyncResults(validators, c))
  {
    if validators != [] {
      var rest := validators[1..];
      SomesCons(validators);
      ResolvedPresent(rest, c);
      AsyncResultsCons(validators, c);
      var head := if validators[0].Some? then Resolved(validators[0].value(c)) else None;
      UnionAllCons(head, AsyncResults(rest, c));
      if validators[0].Some? {
        var f := validators[0].value;
        var tail := Somes(rest);
        ExecuteCons(c, f, tail);
        ResolvedAllCons(f(c), Execute(c, tail));
        UnionAllCons(Resolved(f(c)), ResolvedAll(Execute(c, tail)));
      }
    }
  }

  lemma AsyncPresentMerges(validators: seq<Option<AsyncFn>>, c: Value)
    requires ToObservables(Execute(c, Somes(validators))).Success?
    ensures UnionAll(ForkJoin(ToObservables(Execute(c, Somes(validators))).value))
         == UnionAll(AsyncResults(validators, c))
  {
    ForkJoinResolved(Execute(c, Somes(validators)));
    ResolvedPresent(validators, c);
  }

  /**
   * The composed async validator fails with the "Promise or Observable"
   * message when some present validator returns neither kind, and otherwise
   * yields the union of the present validators' resolved results in list order.
   */
  lemma ComposeAsyncInOrder(validators: seq<Option<AsyncFn>>, c: Value)
    requires ComposeAsync(Some(validators)).Some?
    ensures ComposeAsync(Some(validators)).value(c).Failure? <==> SomeNotAsync(validators, c)
    ensures ComposeAsync(Some(validators)).value(c).Failure? ==>
      ComposeAsync(Some(validators)).value(c).error == NotAsyncMessage
    ensures ComposeAsync(Some(validators)).value(c).Success? ==>
      ComposeAsync(Some(validators)).value(c).value == Merge(AsyncResults(validators, c))
  {
    AsyncPresentFails(validators, c);
    if ComposeAsync(Some(validators)).value(c).Success? {
      AsyncPresentMerges(validators, c);
    }
  }

  // ---------------------------------------------------------------------------
  // Normalisation of validator objects to functions
  // ---------------------------------------------------------------------------

  /** A validator as a caller supplies it: a plain function, or an object with a `validate` method. */
  datatype Entry<R> = Fn(f: Value -> R) | Validatable(validate: Value -> R)

  /** `isValidatorFn`: nullish, or without a `validate` member. */
  predicate IsValidatorFn<R>(e: Option<Entry<R>>): (r: bool)
    ensures r <==> !(e.Some? && e.value.Validatable?)
  {
    e.None? || e.value.Fn?
  }

  /** `normalizeValidator`; `None` stands for a `null` or `undefined` entry, kept as it is. */
  function NormalizeValidator<R>(e: Option<Entry<R>>): (r: Option<Value -> R>)
    ensures r.None? <==> e.None?
    ensures e.Some? && e.value.Fn? ==> r == Some(e.value.f)
    ensures e.Some? && e.value.Validatable? ==> forall c :: r.value(c) == e.value.validate(c)
  {
    if IsValidatorFn(e) then
      (if e.None? then None else Some(e.value.f))
    else
      Some((c: Value) => e.value.validate(c))
  }

  /** `normalizeValidators`: normalises each entry, keeping length and order. */
  function NormalizeValidators<R>(validators: seq<Option<Entry<R>>>): (r: seq<Option<Value -> R>>)
    ensures |r| == |validators|
    ensures forall i :: 0 <= i < |validators| ==> r[i] == NormalizeValidator(validators[i])
  {
    seq(|validators|, i requires 0 <= i < |validators| => NormalizeValidator(validators[i]))
  }

  /** What an entry yields when run: its function's or its `validate` method's result. */
  function Run<R>(e: Entry<R>, c: Value): R {
    match e
    case Fn(f) => f(c)
    case Validatable(validate) => validate(c)
  }

  /** A normalised entry computes what the original entry computes. */
  lemma NormalizePreservesResults<R>(validators: seq<Option<Entry<R>>>, c: Value, i: int)
    requires 0 <= i < |validators|
    ensures NormalizeValidators(validators)[i].None? <==> validators[i].None?
    ensures validators[i].Some? ==> NormalizeValidators(validators)[i].value(c) == Run(validators[i].value, c)
  {
  }
}
