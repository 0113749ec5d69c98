/**
 * `SwitchExpression` (the `vanilla` demo): the same three-way choice on a stream code
 * written as a classic `switch` with `break`, as an arrow `switch`, and as a `switch`
 * expression that yields a number. Printed lines are returned instead of printed.
 */
module SwitchExpression {
  import opened Wrappers
  import opened Decimal

  function StdinLine(code: int32): string { IntToString(code as int) + " is stdin" }
  function StdoutLine(code: int32): string { IntToString(code as int) + " is stdout" }
  function StderrLine(code: int32): string { IntToString(code as int) + " is stderr" }
  function UnknownLine(code: int32): string { "未知 Code: " + IntToString(code as int) }

  /** One arm of a classic `switch`: its label (`None` for `default`), its line, and whether it ends in `break`. */
  datatype Arm = Arm(caseLabel: Option<int>, line: string, breaks: bool)

  /**
   * The classic statement runs from the first matching label, or from `default`, and
   * falls through until a `break`.
   */
  function Start(cases: seq<Arm>, code: int): (k: nat)
    ensures k <= |cases|
    ensures (exists i :: 0 <= i < |cases| && cases[i].caseLabel == Some(code)) ==>
      k < |cases| && cases[k].caseLabel == Some(code) && forall j :: 0 <= j < k ==> cases[j].caseLabel != Some(code)
    ensures (forall i :: 0 <= i < |cases| ==> cases[i].caseLabel != Some(code)) ==>
      (k < |cases| ==> cases[k].caseLabel.None?) && forall j :: 0 <= j < k ==> cases[j].caseLabel.Some?
  {
    if exists i :: 0 <= i < |cases| && cases[i].caseLabel == Some(code) then FirstLabel(cases, Some(code))
    else FirstLabel(cases, None)
  }

  function FirstLabel(cases: seq<Arm>, caseLabel: Option<int>): (k: nat)
    ensures k <= |cases|
    ensures k < |cases| ==> cases[k].caseLabel == caseLabel
    ensures forall j :: 0 <= j < k ==> cases[j].caseLabel != caseLabel
  {
    if cases == [] then 0
    else if cases[0].caseLabel == caseLabel then 0
    else 1 + FirstLabel(cases[1..], caseLabel)
  }

  /** The lines printed from arm `k` on, up to and including the first `break`. */
  function FallThrough(cases: seq<Arm>, k: nat): seq<string>
    requires k <= |cases|
    decreases |cases| - k
  {
    if k == |cases| then []
    else if cases[k].breaks then [cases[k].line]
    else [cases[k].line] + FallThrough(cases, k + 1)
  }

  /** `oldSwitchStatement`: three arms ending in `break` and a `default` that ends the block. */
  function OldSwitchStatement(code: int32): seq<string> {
    var cases := [
      Arm(Some(0), StdinLine(code), true),
      Arm(Some(1), StdoutLine(code), true),
      Arm(Some(2), StderrLine(code), true),
      Arm(None, UnknownLine(code), false)];
    FallThrough(cases, Start(cases, code as int))
  }

  /** `newSwitchStatement`: arrow arms, so exactly one line. */
  function NewSwitchStatement(code: int32): seq<string> {
    match code
    case 0 => [StdinLine(code)]
    case 1 => [StdoutLine(code)]
    case 2 => [StderrLine(code)]
    case _ => [UnknownLine(code)]
  }

  /** `break` after every labelled arm makes the classic statement print what the arrow form prints. */
  lemma SwitchStatementsAgree(code: int32)
    ensures OldSwitchStatement(code) == NewSwitchStatement(code)
  {
    var cases := [
      Arm(Some(0), StdinLine(code), true),
      Arm(Some(1), StdoutLine(code), true),
      Arm(Some(2), StderrLine(code), true),
      Arm(None, UnknownLine(code), false)];
    assert cases[0].caseLabel == Some(0) && cases[1].caseLabel == Some(1) && cases[2].caseLabel == Some(2) && cases[3].caseLabel == None;
    var k := Start(cases, code as int);
    if 0 <= code <= 2 {
      assert cases[code as int].caseLabel == Some(code as int);
      assert k == code as int;
    } else {
      assert forall i :: 0 <= i < 4 ==> cases[i].caseLabel != Some(code as int);
      assert k == 3;
      assert FallThrough(cases, 4) == [];
      assert FallThrough(cases, 3) == [UnknownLine(code)];
      assert NewSwitchStatement(code) == [UnknownLine(code)];
    }
  }

  /** What `switchYield` prints and yields; `None` is the `NumberFormatException` of the default arm. */
  datatype Yielded = Yielded(line: string, value: Option<int32>)

  /** `switchYield`: 90, 91, 92 for the three known codes, else the decimal text `9` and the code parsed back. */
  function SwitchYield(code: int32): (r: Yielded)
    ensures r.line == NewSwitchStatement(code)[0]
  {
    match code
    case 0 => Yielded(StdinLine(code), Some(90))
    case 1 => Yielded(StdoutLine(code), Some(91))
    case 2 => Yielded(StderrLine(code), Some(92))
    case _ =>
      var parsed := ParseInteger("9" + IntToString(code as int), MinInt32, MaxInt32);
      Yielded(UnknownLine(code), if parsed.Some? then Some(parsed.value as int32) else None)
  }

  lemma {:induction false} Pow10Monotone(a: nat, b: nat)
    requires a <= b
    ensures Pow10(a) <= Pow10(b)
    decreases b
  {
    if a < b {
      Pow10Monotone(a, b - 1);
    }
  }

  /** The text `"9" + code` of a non-negative code, read as a number. */
  lemma NinePrefixValue(code: nat)
    ensures AllDigits("9" + NatToString(code))
    ensures DigitsValue("9" + NatToString(code)) == 9 * Pow10(|NatToString(code)|) + code
  {
    NatToStringDigits(code);
    assert DigitsValue("9") == 9 by {
      assert "9"[..0] == [];
    }
    DigitsValueAppend("9", NatToString(code));
  }

  /** A code from 3 up to 99999999 with d digits yields 9·10^d + code. */
  lemma SwitchYieldPrefixesNine(code: int32)
    requires 3 <= code < 100_000_000
    ensures SwitchYield(code).value.Some?
    ensures SwitchYield(code).value.value as int == 9 * Pow10(|IntToString(code as int)|) + code as int
  {
    var n := code as int;
    var s := NatToString(n);
    NinePrefixValue(n);
    NatToStringLength(n);
    if |s| > 8 {
      Pow10Monotone(8, |s| - 1);
    }
    Pow10Monotone(|s|, 8);
    assert Pow10(8) == 100_000_000;
    assert ("9" + s)[0] == '9';
  }

  /** A negative code gives `"9-…"`, which is not an integer. */
  lemma SwitchYieldNegative(code: int32)
    requires code < 0
    ensures SwitchYield(code).value == None
  {
    var t := "9" + IntToString(code as int);
    assert t[1] == '-';
    assert !AllDigits(t);
  }

  /** From 100000000 on, `"9" + code` exceeds the `int` range. */
  lemma SwitchYieldOverflows(code: int32)
    requires code >= 100_000_000
    ensures SwitchYield(code).value == None
  {
    var n := code as int;
    var s := NatToString(n);
    NinePrefixValue(n);
    NatToStringLength(n);
    if |s| <= 8 {
      Pow10Monotone(|s|, 8);
    }
    Pow10Monotone(9, |s|);
    assert Pow10(8) == 100_000_000 && Pow10(9) == 1_000_000_000;
    assert ("9" + s)[0] == '9';
  }

  /** Example values: the three known codes, and 3 and 10 in the default arm. */
  lemma SwitchYieldExamples(three: int32, ten: int32)
    requires three == 3 && ten == 10
    ensures SwitchYield(0).value == Some(90) && SwitchYield(1).value == Some(91) && SwitchYield(2).value == Some(92)
    ensures SwitchYield(three).value == Some(93) && SwitchYield(ten).value == Some(910)
  {
    SwitchYieldPrefixesNine(three);
    SwitchYieldPrefixesNine(ten);
    assert |IntToString(3)| == 1 && |IntToString(10)| == 2;
  }
}
