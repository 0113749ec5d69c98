/**
 * Length-prefixed text fields ("netstrings"): the decimal length, a colon, then the
 * text. Used as the concrete wire format of the symbolic JWT and password encodings.
 */
module Netstring {
  import opened Wrappers
  import opened Decimal

  /** A length-prefixed field: the decimal length, `:`, then the text itself. */
  function Field(s: string): string {
    NatToString(|s|) + ([':'] + s)
  }

  /** The position of the first `:` in `t`. */
  function IndexOfColon(t: string): (r: Option<nat>)
    ensures r.Some? ==> r.value < |t| && t[r.value] == ':'
  {
    if t == [] then None
    else if t[0] == ':' then Some(0)
    else
      match IndexOfColon(t[1..])
      case None => None
      case Some(i) => Some(i + 1)
  }

  /** Reads one field off the front of `t`, returning it and what follows. */
  function ReadField(t: string): (r: Option<(string, string)>)
    ensures r.Some? ==> |r.value.1| < |t|
  {
    match IndexOfColon(t)
    case None => None
    case Some(i) =>
      var digits := t[..i];
      if digits == [] || !AllDigits(digits) then None
      else
        var n := DigitsValue(digits);
        if i + 1 + n <= |t| then Some((t[i + 1..i + 1 + n], t[i + 1 + n..])) else None
  }

  lemma {:induction false} IndexOfColonAfter(a: string, b: string)
    requires ':' !in a
    ensures IndexOfColon(a + ([':'] + b)) == Some(|a|)
  {
    if a != [] {
      assert (a + ([':'] + b))[1..] == a[1..] + ([':'] + b);
      IndexOfColonAfter(a[1..], b);
    }
  }

  lemma {:induction false} ReadFieldOf(s: string, rest: string)
    ensures ReadField(Field(s) + rest) == Some((s, rest))
  {
    var d := NatToString(|s|);
    NatToStringDigits(|s|);
    assert ':' !in d by {
      forall k | 0 <= k < |d| ensures d[k] != ':' { assert IsDigit(d[k]); }
    }
    var t := Field(s) + rest;
    assert t == d + ([':'] + (s + rest));
    IndexOfColonAfter(d, s + rest);
    assert t[..|d|] == d;
    assert t[|d| + 1..|d| + 1 + |s|] == s;
    assert t[|d| + 1 + |s|..] == rest;
  }

  /** A field can be split off unambiguously: equal texts have equal first fields and rests. */
  lemma FieldInjective(a: string, ra: string, b: string, rb: string)
    requires Field(a) + ra == Field(b) + rb
    ensures a == b && ra == rb
  {
    ReadFieldOf(a, ra);
    ReadFieldOf(b, rb);
  }
}
