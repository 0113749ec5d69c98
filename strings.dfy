/**
 * The string primitives the core leans on: prefix tests on dot paths, hutool's
 * blank-aware trim, split and join, and Java's character case mapping.
 */
module Strs {
  import opened Wrappers

  /** `s.startsWith(p)` / hutool `StrUtil.startWith(s, p)`. */
  predicate StartsWith(s: string, p: string) {
    |p| <= |s| && s[..|p|] == p
  }

  /** `s.endsWith(p)` / hutool `StrUtil.endWith(s, p)`. */
  predicate EndsWith(s: string, p: string) {
    |p| <= |s| && s[|s| - |p|..] == p
  }

  /**
   * A dot path `path` lies strictly below `ancestor`: it extends `ancestor + "."`.
   * Permission ids and role full paths use this one test for "subordinate".
   */
  predicate Below(path: string, ancestor: string) {
    StartsWith(path, ancestor + ".")
  }

  lemma StartsWithTrans(a: string, b: string, c: string)
    requires StartsWith(a, b) && StartsWith(b, c)
    ensures StartsWith(a, c)
  {
    assert a[..|c|] == a[..|b|][..|c|];
  }

  /** `Below` is a strict order: never reflexive ... */
  lemma BelowIrreflexive(p: string)
    ensures !Below(p, p)
  {
  }

  /** ... and transitive. */
  lemma BelowTrans(a: string, b: string, c: string)
    requires Below(a, b) && Below(b, c)
    ensures Below(a, c)
  {
    assert StartsWith(b, c + ".");
    assert (b + ".")[..|c + "."|] == b[..|c + "."|];
    assert StartsWith(b + ".", c + ".");
    StartsWithTrans(a, b + ".", c + ".");
  }

  lemma BelowAntisymmetric(a: string, b: string)
    ensures !(Below(a, b) && Below(b, a))
  {
  }

  /** A path is `Below` its own prefix followed by a dot and anything. */
  lemma BelowExtend(ancestor: string, rest: string)
    ensures Below(ancestor + "." + rest, ancestor)
  {
    assert (ancestor + "." + rest)[..|ancestor + "."|] == ancestor + ".";
  }

  /** One step of a dot path: `x + "." + s` lies below `y` iff `y` is `x` or `x` lies below `y`. */
  lemma BelowStep(x: string, s: char, y: string)
    requires s != '.'
    ensures Below(x + "." + [s], y) <==> y == x || Below(x, y)
  {
    var z := x + "." + [s];
    var n := |y + "."|;
    if n <= |x| {
      assert z[..n] == x[..n];
    } else if n == |x| + 1 {
      assert z[..n] == x + ".";
      assert (x + ".")[..|x|] == x && (y + ".")[..|y|] == y;
    } else if n == |z| {
      assert z[..n][n - 1] == s;
    }
  }

  // ---------------------------------------------------------------------
  // hutool blank handling

  /**
   * hutool `CharUtil.isBlankChar`: `Character.isWhitespace`, `Character.isSpaceChar`,
   * and the characters U+FEFF, U+202A, U+0000, U+3164, U+2800, U+180E.
   */
  predicate IsBlankChar(c: char) {
    var n := c as int;
    (9 <= n <= 13) || (28 <= n <= 32) || n == 0xA0 || n == 0x1680
    || (0x2000 <= n <= 0x200A) || n == 0x2028 || n == 0x2029 || n == 0x202F
    || n == 0x205F || n == 0x3000
    || n == 0xFEFF || n == 0x202A || n == 0 || n == 0x3164 || n == 0x2800 || n == 0x180E
  }

  /** hutool `StrUtil.isBlank`: empty or made of blank characters only. */
  predicate IsBlank(s: string) {
    forall i :: 0 <= i < |s| ==> IsBlankChar(s[i])
  }

  /** The first index from `i` on that is not blank (`|s|` when there is none). */
  function SkipBlanks(s: string, i: nat): (n: nat)
    requires i <= |s|
    ensures i <= n <= |s|
    ensures forall j :: i <= j < n ==> IsBlankChar(s[j])
    ensures n < |s| ==> !IsBlankChar(s[n])
    decreases |s| - i
  {
    if i < |s| && IsBlankChar(s[i]) then SkipBlanks(s, i + 1) else i
  }

  /** Moving `m` back over blanks, never below `lo`. */
  function BackOverBlanks(s: string, lo: nat, m: nat): (r: nat)
    requires lo <= m <= |s|
    ensures lo <= r <= m
    ensures forall j :: r <= j < m ==> IsBlankChar(s[j])
    ensures r > lo ==> !IsBlankChar(s[r - 1])
    decreases m - lo
  {
    if m > lo && IsBlankChar(s[m - 1]) then BackOverBlanks(s, lo, m - 1) else m
  }

  /** `r` occurs in `s` at offset `k`. */
  predicate InfixAt(r: string, s: string, k: int) {
    0 <= k <= |s| - |r| && r == s[k..k + |r|]
  }

  /** A character absent from a string is absent from each of its infixes. */
  lemma InfixNotIn(r: string, s: string, k: int, c: char)
    requires InfixAt(r, s, k) && c !in s
    ensures c !in r
  {
    assert forall j :: 0 <= j < |r| ==> r[j] == s[k + j];
  }

  /** An infix of `s` without its first character is an infix of `s`. */
  lemma InfixOfTail(r: string, s: string, k: int)
    requires s != [] && InfixAt(r, s[1..], k)
    ensures InfixAt(r, s, k + 1)
  {
    assert s[1..][k..k + |r|] == s[k + 1..k + 1 + |r|];
  }

  /** An infix of `s` without its last character is an infix of `s`. */
  lemma InfixOfInit(r: string, s: string, k: int)
    requires s != [] && InfixAt(r, s[..|s| - 1], k)
    ensures InfixAt(r, s, k)
  {
    assert s[..|s| - 1][k..k + |r|] == s[k..k + |r|];
  }

  /** Neither end of `s` is a blank character. */
  predicate IsTrimmed(s: string) {
    s != [] ==> !IsBlankChar(s[0]) && !IsBlankChar(s[|s| - 1])
  }

  /**
   * hutool `StrUtil.trim`: drops leading and trailing blank characters. The result
   * is the infix of `s` that neither starts nor ends with a blank, and it is empty
   * exactly when `s` is blank.
   */
  function Trim(s: string): (r: string)
    ensures exists k :: InfixAt(r, s, k)
    ensures IsTrimmed(r)
    ensures r == [] <==> IsBlank(s)
  {
    var n := SkipBlanks(s, 0);
    var m := BackOverBlanks(s, n, |s|);
    assert InfixAt(s[n..m], s, n);
    s[n..m]
  }

  /**
   * What `trim` drops is blank: the result sits in `s` between a blank prefix and a
   * blank suffix. With `IsTrimmed` of the result this fixes it uniquely.
   */
  lemma TrimDrops(s: string)
    ensures exists k :: InfixAt(Trim(s), s, k) && IsBlank(s[..k]) && IsBlank(s[k + |Trim(s)|..])
  {
    var n := SkipBlanks(s, 0);
    var m := BackOverBlanks(s, n, |s|);
    assert Trim(s) == s[n..m];
    assert InfixAt(s[n..m], s, n);
    assert IsBlank(s[..n]) && IsBlank(s[m..]);
  }

  /** Trimming a string with no blank at either end changes nothing. */
  lemma TrimTrimmed(s: string)
    requires IsTrimmed(s)
    ensures Trim(s) == s
  {
  }

  /** `String.trim`: drops leading and trailing characters up to U+0020. */
  predicate IsJavaTrimmed(c: char) {
    c as int <= 32
  }

  function JavaTrim(s: string): (r: string)
    ensures exists k :: InfixAt(r, s, k)
    ensures r != [] ==> !IsJavaTrimmed(r[0]) && !IsJavaTrimmed(r[|r| - 1])
    decreases |s|
  {
    if s != [] && IsJavaTrimmed(s[0]) then
      var r := JavaTrim(s[1..]);
      var k :| InfixAt(r, s[1..], k);
      InfixOfTail(r, s, k);
      r
    else if s != [] && IsJavaTrimmed(s[|s| - 1]) then
      var r := JavaTrim(s[..|s| - 1]);
      var k :| InfixAt(r, s[..|s| - 1], k);
      InfixOfInit(r, s, k);
      r
    else
      assert InfixAt(s, s, 0);
      s
  }

  /** Every character of `s` is one that `String.trim` drops. */
  predicate AllJavaTrimmed(s: string) {
    forall i :: 0 <= i < |s| ==> IsJavaTrimmed(s[i])
  }

  /**
   * What `String.trim` drops is made of characters up to U+0020: the result sits in `s`
   * between such a prefix and such a suffix.
   */
  lemma JavaTrimDrops(s: string)
    ensures exists k :: InfixAt(JavaTrim(s), s, k) && AllJavaTrimmed(s[..k]) && AllJavaTrimmed(s[k + |JavaTrim(s)|..])
  {
    var k := JavaTrimOffset(s);
  }

  /** The offset of `JavaTrim(s)` in `s`, with everything around it dropped by `trim`. */
  lemma {:induction false} JavaTrimOffset(s: string) returns (k: nat)
    ensures DropsTo(s, JavaTrim(s), k)
    decreases |s|
  {
    if s != [] && IsJavaTrimmed(s[0]) {
      var j := JavaTrimOffset(s[1..]);
      JavaTrimFront(s);
      DroppedFront(s, JavaTrim(s[1..]), j);
      k := j + 1;
    } else if s != [] && IsJavaTrimmed(s[|s| - 1]) {
      k := JavaTrimOffset(s[..|s| - 1]);
      JavaTrimBack(s);
      DroppedBack(s, JavaTrim(s[..|s| - 1]), k);
    } else {
      JavaTrimNoControlEnds(s);
      DroppedNone(s);
      k := 0;
    }
  }

  /** `r` sits at `k` in `s`, and what lies around it in `s` is dropped by `trim`. */
  predicate DropsTo(s: string, r: string, k: nat) {
    InfixAt(r, s, k) && AllJavaTrimmed(s[..k]) && AllJavaTrimmed(s[k + |r|..])
  }

  lemma JavaTrimFront(s: string)
    requires s != [] && IsJavaTrimmed(s[0])
    ensures JavaTrim(s) == JavaTrim(s[1..])
  {
  }

  lemma JavaTrimBack(s: string)
    requires s != [] && !IsJavaTrimmed(s[0]) && IsJavaTrimmed(s[|s| - 1])
    ensures JavaTrim(s) == JavaTrim(s[..|s| - 1])
  {
  }

  lemma DroppedNone(s: string)
    ensures DropsTo(s, s, 0)
  {
    assert s[..0] == [] && s[|s|..] == [];
  }

  lemma DroppedFront(s: string, r: string, j: nat)
    requires s != [] && IsJavaTrimmed(s[0])
    requires DropsTo(s[1..], r, j)
    ensures DropsTo(s, r, j + 1)
  {
    InfixOfTail(r, s, j);
    forall i | 0 <= i < j + 1 ensures IsJavaTrimmed(s[i]) {
      if i > 0 {
        assert s[i] == s[1..][..j][i - 1];
      }
    }
    assert forall i :: 0 <= i < j + 1 ==> s[..j + 1][i] == s[i];
    assert s[j + 1 + |r|..] == s[1..][j + |r|..];
  }

  lemma DroppedBack(s: string, r: string, k: nat)
    requires s != [] && IsJavaTrimmed(s[|s| - 1])
    requires DropsTo(s[..|s| - 1], r, k)
    ensures DropsTo(s, r, k)
  {
    InfixOfInit(r, s, k);
    assert s[..k] == s[..|s| - 1][..k];
    assert s[k + |r|..] == s[..|s| - 1][k + |r|..] + [s[|s| - 1]];
  }

  lemma JavaTrimNoControlEnds(s: string)
    requires s != [] ==> !IsJavaTrimmed(s[0]) && !IsJavaTrimmed(s[|s| - 1])
    ensures JavaTrim(s) == s
  {
  }

  // ---------------------------------------------------------------------
  // split and join

  /**
   * Every piece between separators, without trimming or dropping: `Split("a,,b", ',')`
   * is `["a", "", "b"]` and `Split("", ',')` is `[""]`.
   */
  function Split(s: string, sep: char): (r: seq<string>)
    ensures |r| >= 1
    ensures forall i :: 0 <= i < |r| ==> sep !in r[i]
    decreases |s|
  {
    if s == [] then [""]
    else
      var rest := Split(s[1..], sep);
      if s[0] == sep then [""] + rest
      else [[s[0]] + rest[0]] + rest[1..]
  }

  /** The pieces of `x` with `c` put in front of the first one. */
  function ConsFirst(c: char, ps: seq<string>): seq<string>
    requires |ps| >= 1
  {
    [[c] + ps[0]] + ps[1..]
  }

  /** One character in front: a separator opens a new piece, anything else joins the first. */
  lemma SplitCons(c: char, x: string, sep: char)
    ensures Split([c] + x, sep) == if c == sep then [""] + Split(x, sep) else ConsFirst(c, Split(x, sep))
  {
    assert ([c] + x)[1..] == x;
    assert ([c] + x)[0] == c;
  }

  lemma ConsFirstConcat(c: char, l: seq<string>, r: seq<string>)
    requires |l| >= 1
    ensures ConsFirst(c, l + r) == ConsFirst(c, l) + r
  {
    assert (l + r)[0] == l[0];
    assert (l + r)[1..] == l[1..] + r;
  }

  /** `String.join(sep, parts)` / hutool `CollUtil.join` / `Collectors.joining(sep)`. */
  function Join(sep: string, parts: seq<string>): string
    decreases |parts|
  {
    if |parts| == 0 then ""
    else if |parts| == 1 then parts[0]
    else parts[0] + sep + Join(sep, parts[1..])
  }

  /** Splitting loses nothing: re-joining the pieces gives the input back. */
  lemma {:induction false} JoinSplit(s: string, sep: char)
    ensures Join([sep], Split(s, sep)) == s
    decreases |s|
  {
    if s != [] {
      var rest := Split(s[1..], sep);
      JoinSplit(s[1..], sep);
      if s[0] == sep {
        assert s == [sep] + s[1..];
      } else if |rest| == 1 {
        assert s == [s[0]] + s[1..];
      } else {
        assert [[s[0]] + rest[0]] + rest[1..] == [[s[0]] + rest[0]] + rest[1..];
        assert Join([sep], rest) == rest[0] + [sep] + Join([sep], rest[1..]);
        assert s == [s[0]] + s[1..];
      }
    }
  }

  lemma {:induction false} SplitConcat(a: string, sep: char, b: string)
    requires sep !in a
    ensures Split(a + [sep] + b, sep) == [a] + Split(b, sep)
    decreases |a|
  {
    if a == [] {
      assert a + [sep] + b == [sep] + b;
      assert ([sep] + b)[1..] == b;
    } else {
      SplitConcat(a[1..], sep, b);
      assert (a + [sep] + b)[1..] == a[1..] + [sep] + b;
      assert [a[0]] + a[1..] == a;
    }
  }

  lemma {:induction false} SplitNoSep(a: string, sep: char)
    requires sep !in a
    ensures Split(a, sep) == [a]
    decreases |a|
  {
    if a != [] {
      SplitNoSep(a[1..], sep);
      assert [a[0]] + a[1..] == a;
    }
  }

  /** Joining pieces that contain no separator, then splitting, gives the pieces back. */
  lemma {:induction false} SplitJoin(parts: seq<string>, sep: char)
    requires |parts| >= 1
    requires forall i :: 0 <= i < |parts| ==> sep !in parts[i]
    ensures Split(Join([sep], parts), sep) == parts
    decreases |parts|
  {
    if |parts| == 1 {
      SplitNoSep(parts[0], sep);
    } else {
      SplitJoin(parts[1..], sep);
      SplitConcat(parts[0], sep, Join([sep], parts[1..]));
      assert [parts[0]] + parts[1..] == parts;
    }
  }

  /** The non-empty trimmed pieces, in order. */
  function TrimDropEmpty(pieces: seq<string>): (r: seq<string>)
    ensures |r| <= |pieces|
    ensures AllClean(r)
  {
    if pieces == [] then []
    else
      var rest := TrimDropEmpty(pieces[1..]);
      CleanAppend(TrimEntry(pieces[0]), rest);
      TrimEntry(pieces[0]) + rest
  }

  /** One piece, trimmed, or nothing when it trims to empty. */
  function TrimEntry(p: string): (r: seq<string>)
    ensures AllClean(r)
  {
    var t := Trim(p);
    if t == [] then [] else [t]
  }

  /** Every piece is non-empty and has no blank at either end. */
  predicate AllClean(pieces: seq<string>) {
    forall i :: 0 <= i < |pieces| ==> pieces[i] != [] && IsTrimmed(pieces[i])
  }

  lemma CleanAppend(x: seq<string>, y: seq<string>)
    requires AllClean(x) && AllClean(y)
    ensures AllClean(x + y)
  {
    forall i | 0 <= i < |x + y|
      ensures (x + y)[i] != [] && IsTrimmed((x + y)[i])
    {
      if i >= |x| {
        assert (x + y)[i] == y[i - |x|];
      }
    }
  }

  /**
   * hutool `StrUtil.split(s, sep, true, true)` (also `splitTrim`): split on `sep`,
   * trim each piece, drop the empty ones.
   */
  function SplitTrim(s: string, sep: char): (r: seq<string>)
    ensures forall i :: 0 <= i < |r| ==> r[i] != [] && sep !in r[i] && IsTrimmed(r[i])
    ensures sep !in s ==> r == if IsBlank(s) then [] else [Trim(s)]
  {
    var pieces := Split(s, sep);
    SplitTrimNoSep(pieces, sep);
    if sep !in s then
      SplitNoSep(s, sep);
      assert pieces[1..] == [];
      TrimDropEmpty(pieces)
    else
      TrimDropEmpty(pieces)
  }

  /** The pieces of `a + [sep] + b` are the pieces of `a` followed by the pieces of `b`. */
  lemma {:induction false} SplitAround(a: string, sep: char, b: string)
    ensures Split(a + [sep] + b, sep) == Split(a, sep) + Split(b, sep)
    decreases |a|
  {
    if a == [] {
      assert a + [sep] + b == [sep] + b;
      SplitCons(sep, b, sep);
    } else {
      var c, t := a[0], a[1..];
      assert a + [sep] + b == [c] + (t + [sep] + b);
      assert a == [c] + t;
      SplitAround(t, sep, b);
      SplitCons(c, t + [sep] + b, sep);
      SplitCons(c, t, sep);
      if c != sep {
        ConsFirstConcat(c, Split(t, sep), Split(b, sep));
      }
    }
  }

  /** Trimming and dropping empties works piece by piece, keeping the order. */
  lemma {:induction false} TrimDropEmptyConcat(p: seq<string>, q: seq<string>)
    ensures TrimDropEmpty(p + q) == TrimDropEmpty(p) + TrimDropEmpty(q)
  {
    if p == [] {
      assert p + q == q;
    } else {
      var h := TrimEntry(p[0]);
      assert (p + q)[0] == p[0] && (p + q)[1..] == p[1..] + q;
      calc {
        TrimDropEmpty(p + q);
        h + TrimDropEmpty(p[1..] + q);
        { TrimDropEmptyConcat(p[1..], q); }
        h + (TrimDropEmpty(p[1..]) + TrimDropEmpty(q));
        (h + TrimDropEmpty(p[1..])) + TrimDropEmpty(q);
        TrimDropEmpty(p) + TrimDropEmpty(q);
      }
    }
  }

  /**
   * `splitTrim` in order: the clean pieces of a text with a separator in it are the
   * clean pieces before it followed by the clean pieces after it.
   */
  lemma SplitTrimConcat(a: string, sep: char, b: string)
    ensures SplitTrim(a + [sep] + b, sep) == SplitTrim(a, sep) + SplitTrim(b, sep)
  {
    SplitAround(a, sep, b);
    TrimDropEmptyConcat(Split(a, sep), Split(b, sep));
  }

  /** `StrUtil.split(s, ",", true, true)` on a nullable column: null gives the empty list. */
  function SplitCommaList(s: Option<string>): seq<string> {
    if s.None? then [] else SplitTrim(s.value, ',')
  }

  lemma {:induction false} SplitTrimNoSep(pieces: seq<string>, sep: char)
    requires forall i :: 0 <= i < |pieces| ==> sep !in pieces[i]
    ensures forall i :: 0 <= i < |TrimDropEmpty(pieces)| ==> sep !in TrimDropEmpty(pieces)[i]
  {
    if pieces != [] {
      SplitTrimNoSep(pieces[1..], sep);
      var t := Trim(pieces[0]);
      var k :| InfixAt(t, pieces[0], k);
      InfixNotIn(t, pieces[0], k, sep);
      var rest := TrimDropEmpty(pieces[1..]);
      assert TrimDropEmpty(pieces) == (if t == [] then [] else [t]) + rest;
    }
  }

  /** Pieces already non-empty and trimmed pass through `TrimDropEmpty` unchanged. */
  lemma {:induction false} TrimDropEmptyKeeps(pieces: seq<string>)
    requires forall i :: 0 <= i < |pieces| ==> pieces[i] != [] && IsTrimmed(pieces[i])
    ensures TrimDropEmpty(pieces) == pieces
  {
    if pieces != [] {
      TrimDropEmptyKeeps(pieces[1..]);
      TrimTrimmed(pieces[0]);
      assert [pieces[0]] + pieces[1..] == pieces;
    }
  }

  /**
   * Joining clean pieces with `sep` and splitting the result with trimming gives
   * the pieces back; in particular the empty list joins to `""` and comes back empty.
   */
  lemma SplitTrimJoin(parts: seq<string>, sep: char)
    requires forall i :: 0 <= i < |parts| ==> parts[i] != [] && sep !in parts[i] && IsTrimmed(parts[i])
    ensures SplitTrim(Join([sep], parts), sep) == parts
  {
    if parts == [] {
      assert Split("", sep) == [""];
      assert TrimDropEmpty([""]) == [];
    } else {
      SplitJoin(parts, sep);
      TrimDropEmptyKeeps(parts);
    }
  }

  // ---------------------------------------------------------------------
  // case mapping

  /**
   * `Character.toUpperCase` as far as it yields one of the letters A-Z: the ASCII
   * letters, the dotless i (U+0131) and the long s (U+017F). Other characters are
   * left unchanged.
   */
  function UpperChar(c: char): (u: char)
    ensures 'A' <= u <= 'Z' || u == c
  {
    if 'a' <= c <= 'z' then (c as int - 32) as char
    else if c as int == 0x131 then 'I'
    else if c as int == 0x17F then 'S'
    else c
  }

  /** `Character.toLowerCase` on ASCII letters; other characters are left unchanged. */
  function LowerChar(c: char): (l: char)
    ensures 'a' <= l <= 'z' || l == c
  {
    if 'A' <= c <= 'Z' then (c as int + 32) as char else c
  }

  function ToUpper(s: string): (r: string)
    ensures |r| == |s| && forall i :: 0 <= i < |s| ==> r[i] == UpperChar(s[i])
  {
    seq(|s|, i requires 0 <= i < |s| => UpperChar(s[i]))
  }

  function ToLower(s: string): (r: string)
    ensures |r| == |s| && forall i :: 0 <= i < |s| ==> r[i] == LowerChar(s[i])
  {
    seq(|s|, i requires 0 <= i < |s| => LowerChar(s[i]))
  }

  /** Upper-casing twice is upper-casing once. */
  lemma ToUpperIdempotent(s: string)
    ensures ToUpper(ToUpper(s)) == ToUpper(s)
  {
  }

  /** Case-insensitive character equality as `String.regionMatches(true, …)` decides it. */
  predicate CharEqualsIgnoreCase(a: char, b: char) {
    a == b || UpperChar(a) == UpperChar(b) || LowerChar(UpperChar(a)) == LowerChar(UpperChar(b))
  }

  /** `String.equalsIgnoreCase` / hutool `StrUtil.equalsIgnoreCase` on non-null strings. */
  predicate EqualsIgnoreCase(a: string, b: string) {
    |a| == |b| && forall i :: 0 <= i < |a| ==> CharEqualsIgnoreCase(a[i], b[i])
  }

  /** `t` occurs in `s` at offset `k`, ignoring case. */
  predicate MatchesIgnoreCaseAt(s: string, t: string, k: int) {
    0 <= k <= |s| - |t| && EqualsIgnoreCase(s[k..k + |t|], t)
  }

  /** hutool `StrUtil.containsIgnoreCase` on non-null strings. */
  predicate ContainsIgnoreCase(s: string, t: string) {
    exists k :: 0 <= k <= |s| - |t| && MatchesIgnoreCaseAt(s, t, k)
  }

  /** Every string contains itself, ignoring case. */
  lemma ContainsIgnoreCaseSelf(s: string)
    ensures ContainsIgnoreCase(s, s)
  {
    assert s[0..|s|] == s;
    assert MatchesIgnoreCaseAt(s, s, 0);
  }
}
