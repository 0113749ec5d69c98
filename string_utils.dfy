/**
 * `shared/util/StringUtils`: the SQL `LIKE` value built from a search box, and the
 * machine code, which is the MAC address text as bytes in upper-case hex. hutool's
 * `StrUtil.bytes` and `HexUtil.decodeHexStr` use the platform's default charset; the
 * model takes that charset to be UTF-8.
 */
module StringUtils {
  import opened Wrappers
  import opened Strs

  // ---------------------------------------------------------------------
  // `toNullableLikeValue`

  /**
   * `replaceAll(" +", "%")`: every maximal run of U+0020 becomes one `%`; `inRun` says
   * whether the text before `s` ended in a space of the current run.
   */
  function CollapseSpaces(s: string, inRun: bool): (r: string)
    ensures ' ' !in r
    ensures |r| <= |s|
  {
    if s == [] then []
    else if s[0] == ' ' then (if inRun then [] else "%") + CollapseSpaces(s[1..], true)
    else [s[0]] + CollapseSpaces(s[1..], false)
  }

  /** `s` without any occurrence of `c`. */
  function Without(s: string, c: char): (r: string)
    ensures c !in r
  {
    if s == [] then [] else (if s[0] == c then [] else [s[0]]) + Without(s[1..], c)
  }

  /**
   * `toNullableLikeValue`: null for null, empty or blank input; otherwise the hutool trim,
   * its space runs collapsed into `%`, between two `%`.
   */
  function ToNullableLikeValue(value: Option<string>): (r: Option<string>)
    ensures r.None? <==> value.None? || IsBlank(value.value)
    ensures r.Some? ==> r.value == "%" + CollapseSpaces(Trim(value.value), false) + "%"
  {
    if value.None? then None
    else
      var t := Trim(value.value);
      if t == [] then None else Some("%" + CollapseSpaces(t, false) + "%")
  }

  /** Apart from the `%` marks, the collapsed text keeps the input's non-space characters in order. */
  lemma {:induction false} CollapseKeepsOthers(s: string, inRun: bool)
    ensures Without(CollapseSpaces(s, inRun), '%') == Without(Without(s, ' '), '%')
    decreases |s|
  {
    if s != [] {
      CollapseKeepsOthers(s[1..], s[0] == ' ');
      WithoutConcat((if s[0] == ' ' then (if inRun then [] else "%") else [s[0]]), CollapseSpaces(s[1..], s[0] == ' '), '%');
      WithoutConcat((if s[0] == ' ' then [] else [s[0]]), Without(s[1..], ' '), '%');
    }
  }

  lemma {:induction false} WithoutConcat(a: string, b: string, c: char)
    ensures Without(a + b, c) == Without(a, c) + Without(b, c)
    decreases |a|
  {
    if a != [] {
      WithoutConcat(a[1..], b, c);
      assert (a + b)[0] == a[0];
      assert (a + b)[1..] == a[1..] + b;
    } else {
      assert a + b == b;
    }
  }

  /** Text with no space passes through unchanged. */
  lemma {:induction false} CollapseNoSpace(s: string, inRun: bool)
    requires ' ' !in s
    ensures CollapseSpaces(s, inRun) == s
    decreases |s|
  {
    if s != [] {
      CollapseNoSpace(s[1..], false);
      assert s == [s[0]] + s[1..];
    }
  }

  /**
   * A `LIKE` value is wrapped in `%`, has no space left, and keeps the other characters
   * of the trimmed input in their order.
   */
  lemma LikeValueShape(value: string)
    requires !IsBlank(value)
    ensures var r := ToNullableLikeValue(Some(value)).value;
      |r| >= 2 && r[0] == '%' && r[|r| - 1] == '%' && ' ' !in r &&
      Without(r, '%') == Without(Without(Trim(value), ' '), '%')
  {
    var t := Trim(value);
    var c := CollapseSpaces(t, false);
    var r := "%" + c + "%";
    assert ToNullableLikeValue(Some(value)) == Some(r);
    assert ' ' !in r by {
      assert forall i :: 0 <= i < |r| ==> r[i] == '%' || r[i] == c[i - 1];
    }
    CollapseKeepsOthers(t, false);
    WithoutConcat("%", c, '%');
    WithoutConcat("%" + c, "%", '%');
    assert Without("%", '%') == [];
  }

  /** Two words with a run of spaces between them become `%one%two%`. */
  lemma LikeValueOfTwoWords(one: string, spaces: string, two: string)
    requires one != [] && two != [] && ' ' !in one && ' ' !in two
    requires IsTrimmed(one + spaces + two)
    requires spaces != [] && forall i :: 0 <= i < |spaces| ==> spaces[i] == ' '
    ensures ToNullableLikeValue(Some(one + spaces + two)) == Some("%" + one + "%" + two + "%")
  {
    var v := one + spaces + two;
    TrimTrimmed(v);
    assert Trim(v) == v;
    assert v != [];
    CollapseWords(one, spaces, two);
    assert CollapseSpaces(v, false) == one + "%" + two;
    assert "%" + (one + "%" + two) + "%" == "%" + one + "%" + two + "%";
  }

  /** The search text of the source's own comment. */
  lemma LikeValueExample(v: string, one: string, spaces: string, two: string)
    requires one == "KeyOne" && spaces == "    " && two == "KeyTwo"
    requires v == "KeyOne    KeyTwo"
    ensures ToNullableLikeValue(Some(v)) == Some("%KeyOne%KeyTwo%")
  {
    ExampleWords(v, one, spaces, two);
    LikeValueOfTwoWords(one, spaces, two);
    ExampleLikeText(one, two);
  }

  lemma ExampleWords(v: string, one: string, spaces: string, two: string)
    requires one == "KeyOne" && spaces == "    " && two == "KeyTwo"
    requires v == "KeyOne    KeyTwo"
    ensures v == one + spaces + two && IsTrimmed(v)
    ensures ' ' !in one && ' ' !in two && forall i :: 0 <= i < |spaces| ==> spaces[i] == ' '
  {
    assert v == one + spaces + two;
    assert v[0] == 'K' && v[|v| - 1] == 'o';
  }

  lemma ExampleLikeText(one: string, two: string)
    requires one == "KeyOne" && two == "KeyTwo"
    ensures "%" + one + "%" + two + "%" == "%KeyOne%KeyTwo%"
  {
  }

  lemma {:induction false} CollapseWords(one: string, spaces: string, two: string)
    requires ' ' !in one && ' ' !in two && two != []
    requires spaces != [] && forall i :: 0 <= i < |spaces| ==> spaces[i] == ' '
    ensures CollapseSpaces(one + spaces + two, false) == one + "%" + two
    decreases |one|
  {
    if one == [] {
      assert one + spaces + two == spaces + two;
      CollapseRun(spaces, two, false);
      CollapseNoSpace(two, true);
    } else {
      assert (one + spaces + two)[1..] == one[1..] + spaces + two;
      CollapseWords(one[1..], spaces, two);
    }
  }

  /** A run of spaces followed by a word starting with a non-space collapses to one `%`. */
  lemma {:induction false} CollapseRun(spaces: string, two: string, inRun: bool)
    requires two != [] && two[0] != ' '
    requires spaces != [] && forall i :: 0 <= i < |spaces| ==> spaces[i] == ' '
    ensures CollapseSpaces(spaces + two, inRun) == (if inRun then [] else "%") + CollapseSpaces(two, true)
    decreases |spaces|
  {
    assert (spaces + two)[1..] == spaces[1..] + two;
    if |spaces| > 1 {
      CollapseRun(spaces[1..], two, true);
    } else {
      assert spaces[1..] + two == two;
    }
  }

  // ---------------------------------------------------------------------
  // Bytes: `StrUtil.bytes` and the decoding in `HexUtil.decodeHexStr`, both in the
  // default charset, taken to be UTF-8

  newtype byte = x: int | 0 <= x < 256

  predicate IsScalar(n: int) {
    (0 <= n < 0xD800) || (0xE000 <= n < 0x11_0000)
  }

  /** The UTF-8 encoding of one Unicode scalar value. */
  function Utf8Char(c: char): (b: seq<byte>)
    ensures 1 <= |b| <= 4
  {
    var n := c as int;
    if n < 0x80 then [n as byte]
    else if n < 0x800 then [(0xC0 + n / 64) as byte, (0x80 + n % 64) as byte]
    else if n < 0x1_0000 then [(0xE0 + n / 4096) as byte, (0x80 + n / 64 % 64) as byte, (0x80 + n % 64) as byte]
    else [(0xF0 + n / 262144) as byte, (0x80 + n / 4096 % 64) as byte, (0x80 + n / 64 % 64) as byte, (0x80 + n % 64) as byte]
  }

  /** `StrUtil.bytes(s)`: the bytes of `s` in the default charset, here UTF-8. */
  function Utf8(s: string): seq<byte> {
    if s == [] then [] else Utf8Char(s[0]) + Utf8(s[1..])
  }

  predicate IsContinuation(b: byte) {
    0x80 <= b < 0xC0
  }

  /** The scalar value to make a character of, when it is one. */
  function ToPair(n: int, k: nat): Option<(char, nat)> {
    if IsScalar(n) then Some((n as char, k)) else None
  }

  /**
   * One UTF-8 sequence at the head of `b`: the character and its length; a malformed
   * or overlong sequence gives `None`.
   */
  function DecodeOne(b: seq<byte>): (r: Option<(char, nat)>)
    requires b != []
    ensures r.Some? ==> 1 <= r.value.1 <= |b|
  {
    var b0 := b[0] as int;
    if b0 < 0x80 then Some((b0 as char, 1))
    else if 0xC0 <= b0 < 0xE0 && |b| >= 2 && IsContinuation(b[1]) then
      var n := (b0 - 0xC0) * 64 + (b[1] as int - 0x80);
      if n < 0x80 then None else ToPair(n, 2)
    else if 0xE0 <= b0 < 0xF0 && |b| >= 3 && IsContinuation(b[1]) && IsContinuation(b[2]) then
      var n := (b0 - 0xE0) * 4096 + (b[1] as int - 0x80) * 64 + (b[2] as int - 0x80);
      if n < 0x800 then None else ToPair(n, 3)
    else if 0xF0 <= b0 < 0xF8 && |b| >= 4 && IsContinuation(b[1]) && IsContinuation(b[2]) && IsContinuation(b[3]) then
      var n := (b0 - 0xF0) * 262144 + (b[1] as int - 0x80) * 4096 + (b[2] as int - 0x80) * 64 + (b[3] as int - 0x80);
      if n < 0x1_0000 then None else ToPair(n, 4)
    else None
  }

  /** UTF-8 decoding of well-formed bytes; malformed input gives `None`. */
  function Utf8Decode(b: seq<byte>): Option<string>
    decreases |b|
  {
    if b == [] then Some([])
    else
      match DecodeOne(b)
      case None => None
      case Some((c, k)) =>
        match Utf8Decode(b[k..])
        case None => None
        case Some(s) => Some([c] + s)
  }

  lemma Decode2(n: int)
    requires 0x80 <= n < 0x800
    ensures 0xC0 <= 0xC0 + n / 64 < 0xE0 && 0x80 <= 0x80 + n % 64 < 0xC0
    ensures (n / 64) * 64 + n % 64 == n
  {
  }

  lemma Decode3(n: int)
    requires 0x800 <= n < 0x1_0000
    ensures 0xE0 <= 0xE0 + n / 4096 < 0xF0
    ensures 0x80 <= 0x80 + n / 64 % 64 < 0xC0 && 0x80 <= 0x80 + n % 64 < 0xC0
    ensures (n / 4096) * 4096 + (n / 64 % 64) * 64 + n % 64 == n
  {
    var q := n / 64;
    assert q * 64 + n % 64 == n;
    assert (q / 64) * 64 + q % 64 == q;
    assert n / 4096 == q / 64;
  }

  lemma Decode4(n: int)
    requires 0x1_0000 <= n < 0x11_0000
    ensures 0xF0 <= 0xF0 + n / 262144 < 0xF8
    ensures 0x80 <= 0x80 + n / 4096 % 64 < 0xC0
    ensures 0x80 <= 0x80 + n / 64 % 64 < 0xC0 && 0x80 <= 0x80 + n % 64 < 0xC0
    ensures (n / 262144) * 262144 + (n / 4096 % 64) * 4096 + (n / 64 % 64) * 64 + n % 64 == n
  {
    var q := n / 64;
    var p := q / 64;
    assert q * 64 + n % 64 == n;
    assert p * 64 + q % 64 == q;
    assert (p / 64) * 64 + p % 64 == p;
    assert n / 4096 == p;
    assert n / 262144 == p / 64;
  }

  /** The bytes of one character decode back to it, whatever follows. */
  lemma DecodeOneChar(c: char, rest: seq<byte>)
    ensures DecodeOne(Utf8Char(c) + rest) == Some((c, |Utf8Char(c)|))
  {
    var n := c as int;
    assert IsScalar(n);
    if n < 0x80 {
    } else if n < 0x800 {
      Decode2(n);
    } else if n < 0x1_0000 {
      Decode3(n);
    } else {
      Decode4(n);
    }
  }

  /** Decoding the UTF-8 bytes of a string gives the string back. */
  lemma {:induction false} Utf8RoundTrip(s: string)
    ensures Utf8Decode(Utf8(s)) == Some(s)
    decreases |s|
  {
    if s != [] {
      var head, rest := Utf8Char(s[0]), Utf8(s[1..]);
      DecodeOneChar(s[0], rest);
      assert Utf8(s) == head + rest;
      assert (head + rest)[|head|..] == rest;
      Utf8RoundTrip(s[1..]);
      assert s == [s[0]] + s[1..];
    }
  }

  // ---------------------------------------------------------------------
  // Hex: `HexUtil.encodeHexStr(bytes, false)` and `HexUtil.decodeHex`

  const UpperDigits: string := "0123456789ABCDEF"

  predicate IsUpperHexDigit(c: char) {
    ('0' <= c <= '9') || ('A' <= c <= 'F')
  }

  /** The value of a hex digit of either case; anything else makes the decoder throw. */
  function HexValue(c: char): (r: Option<int>)
    ensures r.Some? ==> 0 <= r.value < 16
  {
    if '0' <= c <= '9' then Some(c as int - '0' as int)
    else if 'A' <= c <= 'F' then Some(c as int - 'A' as int + 10)
    else if 'a' <= c <= 'f' then Some(c as int - 'a' as int + 10)
    else None
  }

  /** Two upper-case digits per byte, high nibble first. */
  function EncodeHex(b: seq<byte>): (r: string)
    ensures |r| == 2 * |b|
    ensures forall i :: 0 <= i < |r| ==> IsUpperHexDigit(r[i])
  {
    if b == [] then []
    else [UpperDigits[b[0] as int / 16], UpperDigits[b[0] as int % 16]] + EncodeHex(b[1..])
  }

  /** Hex text back to bytes: pairs of digits; an odd length or a non-digit fails. */
  function DecodeHex(s: string): Option<seq<byte>>
    decreases |s|
  {
    if s == [] then Some([])
    else if |s| == 1 then None
    else
      match (HexValue(s[0]), HexValue(s[1]))
      case (Some(h), Some(l)) =>
        (match DecodeHex(s[2..])
         case None => None
         case Some(rest) => Some([(h * 16 + l) as byte] + rest))
      case _ => None
  }

  lemma DigitValue(d: int)
    requires 0 <= d < 16
    ensures HexValue(UpperDigits[d]) == Some(d)
  {
  }

  /** Both digits of a byte read back, and together make the byte. */
  lemma ByteDigits(x: byte)
    ensures HexValue(UpperDigits[x as int / 16]) == Some(x as int / 16)
    ensures HexValue(UpperDigits[x as int % 16]) == Some(x as int % 16)
    ensures (x as int / 16) * 16 + x as int % 16 == x as int
  {
    DigitValue(x as int / 16);
    DigitValue(x as int % 16);
  }

  lemma {:induction false} HexRoundTrip(b: seq<byte>)
    ensures DecodeHex(EncodeHex(b)) == Some(b)
    decreases |b|
  {
    if b != [] {
      var x := b[0] as int;
      ByteDigits(b[0]);
      HexRoundTrip(b[1..]);
      DecodePair(UpperDigits[x / 16], UpperDigits[x % 16], EncodeHex(b[1..]), x / 16, x % 16, b[1..]);
      assert [b[0]] + b[1..] == b;
    }
  }

  /** Two digits in front of a decodable text decode to one more byte in front. */
  lemma DecodePair(h: char, l: char, tail: string, hv: int, lv: int, rest: seq<byte>)
    requires HexValue(h) == Some(hv) && HexValue(l) == Some(lv) && DecodeHex(tail) == Some(rest)
    ensures DecodeHex([h, l] + tail) == Some([(hv * 16 + lv) as byte] + rest)
  {
    var t := [h, l] + tail;
    assert t[0] == h && t[1] == l && t[2..] == tail;
  }

  /** `getMachineCode`: the MAC text as upper-case hex of its UTF-8 bytes, when a MAC is known. */
  function MachineCode(mac: Option<string>): (r: Option<string>)
    ensures r.Some? <==> mac.Some?
    ensures r.Some? ==> |r.value| == 2 * |Utf8(mac.value)| && forall i :: 0 <= i < |r.value| ==> IsUpperHexDigit(r.value[i])
  {
    if mac.None? then None else Some(EncodeHex(Utf8(mac.value)))
  }

  /** `toMacAddress`: hex text to bytes to a string; malformed input fails. */
  function ToMacAddress(machineCode: string): Option<string> {
    match DecodeHex(machineCode)
    case None => None
    case Some(b) => Utf8Decode(b)
  }

  /** The machine code turns back into the MAC text it was made from. */
  lemma MachineCodeRoundTrip(mac: string)
    ensures ToMacAddress(MachineCode(Some(mac)).value) == Some(mac)
  {
    HexRoundTrip(Utf8(mac));
    Utf8RoundTrip(mac);
  }
}
