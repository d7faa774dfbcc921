/** Properties of the validator library that relate several validators or fix concrete cases. */
module ValidatorProperties {
  import opened Wrappers
  import opened JsValues
  import opened Validators

  /** `required` lets `0` and `false` through: only nullish and zero-length values fail. */
  lemma RequiredAcceptsZeroAndFalse()
    ensures Required(Num(0.0)).None? && Required(Bool(false)).None?
    ensures Required(Str("")) == Some(map["required" := Bool(true)])
    ensures Required(Arr([])).Some? && Required(Null).Some? && Required(Undefined).Some?
  {
  }

  /** `min` and `max` with the same bound never both report an error. */
  lemma MinMaxExclusive(bound: real, parseFloat: Value -> Option<real>, c: Value)
    ensures Min(bound, parseFloat, c).None? || Max(bound, parseFloat, c).None?
  {
  }

  /** `min(3)` on 2 reports `{min: {min: 3, actual: 2}}`; on 5 it reports nothing. */
  lemma MinThreeExample(parseFloat: Value -> Option<real>)
    requires parseFloat(Num(2.0)) == Some(2.0) && parseFloat(Num(5.0)) == Some(5.0)
    ensures Min(3.0, parseFloat, Num(2.0)) == Some(map["min" := Obj(map["min" := Num(3.0), "actual" := Num(2.0)])])
    ensures Min(3.0, parseFloat, Num(5.0)).None?
  {
  }

  /** `minLength` skips every empty value, whereas `maxLength` with a negative bound rejects the empty string. */
  lemma LengthValidatorsOnEmpty(k: real, c: Value)
    requires IsEmptyInputValue(c)
    ensures MinLength(k, c).None?
    ensures k < 0.0 ==> MaxLength(k, Str("")).Some?
  {
  }

  /** The anchoring of `'[a-zA-Z ]*'` is `'^[a-zA-Z ]*$'`, and anchoring twice changes nothing. */
  lemma AnchorExample(p: string)
    ensures Anchor("[a-zA-Z ]*") == "^[a-zA-Z ]*$"
    ensures Anchor(Anchor(p)) == Anchor(p)
  {
    assert "^" + "[a-zA-Z ]*" + "$" == "^[a-zA-Z ]*$";
  }

  /** The union of `{required: true}` and `null` is `{required: true}`. */
  lemma MergeRequiredAndNull()
    ensures Merge([Some(RequiredError), None]) == Some(RequiredError)
  {
    var results: seq<SyncResult> := [Some(RequiredError), None];
    var one: seq<SyncResult> := [None];
    assert results[1..] == one;
    assert one[1..] == [];
    assert UnionAll(one) == map[];
    assert UnionAll(results) == RequiredError + map[];
    assert RequiredError + map[] == RequiredError;
    assert "required" in UnionAll(results);
  }

  /**
   * Composing `[required, email]` and applying it to `''` gives exactly
   * `{required: true}`: `email` skips empty values.
   */
  lemma ComposeRequiredEmailOnEmpty(emailTest: Value -> bool, email: SyncFn)
    requires forall c :: email(c) == Email(emailTest, c)
    ensures var composed := Compose(Some([Some(Required), Some(email)]));
      composed.Some? && composed.value(Str("")) == Some(map["required" := Bool(true)])
  {
    var vs: seq<Option<SyncFn>> := [Some(Required), Some(email)];
    var empty := Str("");
    var results := SyncResults(vs, empty);
    assert results[0] == Some(RequiredError);
    assert results[1] == None;
    assert results == [Some(RequiredError), None];
    MergeRequiredAndNull();
    ComposeInOrder(vs, empty);
  }

  /** A validator list holding only `null`/`undefined` entries composes to `null`. */
  lemma ComposeAllAbsent(n: nat)
    ensures Compose(Some(seq(n, _ => None))).None?
    ensures ComposeAsync(Some(seq(n, _ => None))).None?
  {
  }
}
