/** Account status codes (`auth/AccountStatus.java`), stored as an int column. */
module AccountStatus {
  import opened Wrappers

  datatype AccountStatus = Disabled | Enabled

  /** `VALUES`, in declaration order. */
  const Values: seq<AccountStatus> := [Disabled, Enabled]

  /** The `code` field, the stored and serialised form. */
  function Code(s: AccountStatus): int {
    match s
    case Disabled => 0
    case Enabled => 1
  }

  function Description(s: AccountStatus): string {
    match s
    case Disabled => "账号已被管理员禁用"
    case Enabled => "账号可正常使用"
  }

  /** The first of `vs` whose code is `code`. */
  function FindByCode(vs: seq<AccountStatus>, code: int): (r: Option<AccountStatus>)
    ensures r.Some? ==> r.value in vs && Code(r.value) == code
    ensures r.None? ==> forall s :: s in vs ==> Code(s) != code
  {
    if vs == [] then None
    else if Code(vs[0]) == code then Some(vs[0])
    else FindByCode(vs[1..], code)
  }

  /**
   * `resolve(code)`: empty for a null code, otherwise the first constant whose code
   * equals it, and empty when none does.
   */
  function Resolve(code: Option<int>): (r: Option<AccountStatus>)
    ensures r.Some? <==> code.Some? && exists s :: Code(s) == code.value
    ensures r.Some? ==> Code(r.value) == code.value
  {
    match code
    case None => None
    case Some(c) =>
      var r := FindByCode(Values, c);
      assert r.None? ==> forall s :: Code(s) != c by {
        forall s ensures s in Values {
          assert s == Values[if s == Disabled then 0 else 1];
        }
      }
      r
  }

  /** The two codes: 0 is DISABLED, 1 is ENABLED, null and every other integer are empty. */
  lemma ResolveCodes(code: Option<int>)
    ensures Resolve(Some(0)) == Some(Disabled)
    ensures Resolve(Some(1)) == Some(Enabled)
    ensures Resolve(None) == None
    ensures code.Some? && code.value != 0 && code.value != 1 ==> Resolve(code) == None
  {
  }

  /** Codes are distinct, so each status is recovered from its own code. */
  lemma ResolveOwnCode(s: AccountStatus)
    ensures Resolve(Some(Code(s))) == Some(s)
  {
  }
}
