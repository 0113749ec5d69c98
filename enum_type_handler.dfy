/**
 * `EnumTypeHandler`: an enum stored as its int code. Writing stores the constant's code;
 * reading looks up the first constant with the code read.
 */
module EnumTypeHandler {
  import opened Wrappers
  import AccountStatus

  /** The first of `cs` whose code is `value`. */
  function FindFirst<E>(cs: seq<E>, code: E -> int, value: int): (r: Option<E>)
    ensures r.None? <==> forall i :: 0 <= i < |cs| ==> code(cs[i]) != value
    ensures r.Some? ==> exists i :: (0 <= i < |cs| && cs[i] == r.value && code(cs[i]) == value &&
      forall j :: 0 <= j < i ==> code(cs[j]) != value)
  {
    if cs == [] then None
    else if code(cs[0]) == value then Some(cs[0])
    else
      var r := FindFirst(cs[1..], code, value);
      assert r.Some? ==> exists i :: (0 <= i < |cs| && cs[i] == r.value && code(cs[i]) == value &&
        forall j :: 0 <= j < i ==> code(cs[j]) != value) by {
        if r.Some? {
          var k :| 0 <= k < |cs[1..]| && cs[1..][k] == r.value && code(cs[1..][k]) == value &&
            forall j :: 0 <= j < k ==> code(cs[1..][j]) != value;
          assert cs[k + 1] == cs[1..][k];
          assert forall j :: 1 <= j < k + 1 ==> cs[j] == cs[1..][j - 1];
        }
      }
      r
  }

  /**
   * `toNullableEnum`: null when the class has no constants or none has the code;
   * otherwise the first with it. The three `getNullableResult` overloads differ only
   * in where the int is read from, and each returns this for the int it read.
   */
  function ToNullableEnum<E>(constants: Option<seq<E>>, code: E -> int, value: int): (r: Option<E>)
    ensures r.None? <==> constants.None? || forall i :: 0 <= i < |constants.value| ==> code(constants.value[i]) != value
    ensures r.Some? ==> exists i :: (0 <= i < |constants.value| && constants.value[i] == r.value &&
      code(r.value) == value && forall j :: 0 <= j < i ==> code(constants.value[j]) != value)
  {
    if constants.None? then None else FindFirst(constants.value, code, value)
  }

  /** `setNonNullParameter`: the column receives the constant's code. */
  function SetNonNullParameter<E>(parameter: E, code: E -> int): int {
    code(parameter)
  }

  ghost predicate DistinctCodes<E>(cs: seq<E>, code: E -> int) {
    forall i, j :: 0 <= i < |cs| && 0 <= j < |cs| && code(cs[i]) == code(cs[j]) ==> cs[i] == cs[j]
  }

  /** With distinct codes, reading what was written gives the constant back. */
  lemma WriteThenRead<E>(cs: seq<E>, code: E -> int, e: E)
    requires DistinctCodes(cs, code) && e in cs
    ensures ToNullableEnum(Some(cs), code, SetNonNullParameter(e, code)) == Some(e)
  {
    var i :| 0 <= i < |cs| && cs[i] == e;
    var r := FindFirst(cs, code, code(e));
    assert code(cs[i]) == code(e);
    var k :| 0 <= k < |cs| && cs[k] == r.value && code(cs[k]) == code(e) &&
      forall j :: 0 <= j < k ==> code(cs[j]) != code(e);
  }

  /** For account status the handler agrees with `AccountStatus.resolve`. */
  lemma AccountStatusColumn(value: int)
    ensures ToNullableEnum(Some(AccountStatus.Values), AccountStatus.Code, value) == AccountStatus.Resolve(Some(value))
  {
    var r := ToNullableEnum(Some(AccountStatus.Values), AccountStatus.Code, value);
    var cs := AccountStatus.Values;
    assert cs[0] == AccountStatus.Disabled && cs[1] == AccountStatus.Enabled && |cs| == 2;
  }
}
