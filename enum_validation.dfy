/**
 * `EnumValidatorImpl`: the `@EnumValidator` constraint. `initialize` collects the code of
 * every constant of the enum through reflection; `isValid` accepts null, any collected
 * code, and everything once a `getCode` call has failed.
 */
module EnumValidation {
  import opened Wrappers
  import AccountStatus

  /**
   * The codes collected from the constants, in declaration order. Each constant is what
   * its reflective `getCode()` call gives: the code, or `None` when the method is missing
   * or throws.
   */
  function Codes(constants: seq<Option<int>>): (r: seq<int>)
    ensures |r| <= |constants|
    ensures forall v :: v in r <==> Some(v) in constants
  {
    if constants == [] then []
    else
      var init := constants[..|constants| - 1];
      var last := constants[|constants| - 1];
      assert constants == init + [last];
      Codes(init) + (if last.Some? then [last.value] else [])
  }

  /**
   * The codes come in declaration order: those of a longer list of constants are those
   * of its first part followed by those of the rest.
   */
  lemma {:induction false} CodesConcat(a: seq<Option<int>>, b: seq<Option<int>>)
    ensures Codes(a + b) == Codes(a) + Codes(b)
    decreases |b|
  {
    if b == [] {
      assert a + b == a;
    } else {
      var init := b[..|b| - 1];
      var last := b[|b| - 1];
      var t := if last.Some? then [last.value] else [];
      assert (a + b)[..|a + b| - 1] == a + init;
      assert (a + b)[|a + b| - 1] == last;
      calc {
        Codes(a + b);
        Codes(a + init) + t;
        { CodesConcat(a, init); }
        (Codes(a) + Codes(init)) + t;
        Codes(a) + (Codes(init) + t);
        Codes(a) + Codes(b);
      }
    }
  }

  /** One constant contributes its code, or nothing when `getCode` failed. */
  lemma CodesOne(c: Option<int>)
    ensures Codes([c]) == if c.Some? then [c.value] else []
  {
    assert [c][..0] == [];
  }

  class EnumValidatorImpl {
    var isPassed: bool
    var values: seq<int>
    /** The constants the last `initialize` saw (none when the class has no constants). */
    ghost var constants: seq<Option<int>>

    /** `values` holds the collected codes, and a failed `getCode` has set `isPassed`. */
    ghost predicate Valid()
      reads this
    {
      values == Codes(constants) && (None in constants ==> isPassed)
    }

    constructor ()
      ensures !isPassed && values == [] && constants == []
      ensures Valid()
    {
      isPassed := false;
      values := [];
      constants := [];
    }

    /** `initialize`: one step per constant, in declaration order. */
    method Initialize(enumConstants: Option<seq<Option<int>>>)
      modifies this
      ensures constants == (if enumConstants.Some? then enumConstants.value else [])
      ensures values == Codes(constants)
      ensures isPassed == (old(isPassed) || None in constants)
      ensures Valid()
    {
      values := [];
      constants := if enumConstants.Some? then enumConstants.value else [];
      if enumConstants.Some? {
        var cs := enumConstants.value;
        var i := 0;
        while i < |cs|
          invariant 0 <= i <= |cs|
          invariant constants == cs
          invariant values == Codes(cs[..i])
          invariant isPassed == (old(isPassed) || None in cs[..i])
        {
          assert cs[..i + 1][..i] == cs[..i];
          assert cs[..i + 1] == cs[..i] + [cs[i]];
          if cs[i].Some? {
            values := values + [cs[i].value];
          } else {
            isPassed := true;
          }
          i := i + 1;
        }
        assert cs[..|cs|] == cs;
      }
    }

    /**
     * `isValid`: null always passes; after a failed `getCode` everything passes;
     * otherwise exactly the codes some constant returned.
     */
    predicate IsValid(value: Option<int>)
      requires Valid()
      reads this
      ensures value.None? ==> IsValid(value)
      ensures None in constants ==> IsValid(value)
      ensures value.Some? && !isPassed ==> (IsValid(value) <==> Some(value.value) in constants)
    {
      isPassed || value.None? || value.value in values
    }
  }

  /** Example: for `AccountStatus` the validator collects 0 and 1, in that order. */
  lemma AccountStatusCodes(cs: seq<Option<int>>)
    requires cs == [Some(AccountStatus.Code(AccountStatus.Values[0])), Some(AccountStatus.Code(AccountStatus.Values[1]))]
    ensures Codes(cs) == [0, 1]
  {
    assert cs == [Some(0), Some(1)];
    assert cs[..1] == [Some(0)];
    assert cs[..1][..0] == [];
  }
}
