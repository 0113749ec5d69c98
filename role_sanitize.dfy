/**
 * `RoleService.toSanitizeAuthorityCommaSeparatorStr` and `checkIsASubordinateAuthority`:
 * the permission list a client sends for a role is cleaned, checked against what the
 * signed-in user owns, de-duplicated, cut down to its topmost codes and stored as one
 * comma-joined string.
 */
module RoleSanitize {
  import opened Wrappers
  import opened Strs
  import opened RestApi
  import Authority
  import opened Mappers
  import opened RoleDto

  /** Thrown when `isSubNode` rejects a code it does not know. */
  const IllegalCode: ApiError := ApiException(BadRequest, "权限代码不合法")

  /** Thrown when a requested code lies outside what the user owns. */
  const BeyondOwned: ApiError := ApiException(Forbidden, "不能分配超过当前账号功能权限的功能")

  /** `code` names one of the `Authority` constants, ignoring case. */
  predicate Known(code: string) {
    Authority.Resolve(code).Some?
  }

  predicate AllKnown(codes: seq<string>) {
    forall x :: x in codes ==> Known(x)
  }

  /** `own` is `code` itself ("本级") or one of its ancestors ("下级"). */
  predicate Grants(own: string, code: string) {
    own == code || Authority.IsSubNode(own, code) == Success(true)
  }

  predicate NoDuplicates(s: seq<string>) {
    forall i, j | 0 <= i < j < |s| :: s[i] != s[j]
  }

  /** `a` is `b` with some elements left out, the rest kept in their order. */
  predicate IsSubseq(a: seq<string>, b: seq<string>)
    decreases |b|
  {
    a == [] || (b != [] && (IsSubseq(a, b[1..]) || (a[0] == b[0] && IsSubseq(a[1..], b[1..]))))
  }

  /** The position of the first occurrence of `x` in `s`. */
  function IndexOf(s: seq<string>, x: string): (k: nat)
    requires x in s
    ensures k < |s| && s[k] == x
    ensures forall j :: 0 <= j < k ==> s[j] != x
  {
    if s[0] == x then 0 else 1 + IndexOf(s[1..], x)
  }

  // ---------------------------------------------------------------------
  // checkIsASubordinateAuthority

  /**
   * The `noneMatch` over the owned codes, negated: the owned codes are tried in order,
   * an equal one or an ancestor answers yes, and the first `isSubNode` that throws ends
   * the search with `权限代码不合法`.
   */
  function AnyGrants(owned: seq<string>, code: string): (r: Result<bool, ApiError>)
    ensures r == Success(true) ==> exists o :: o in owned && Grants(o, code)
    ensures r == Success(false) ==> forall o :: o in owned ==> !Grants(o, code)
    ensures r.Failure? ==> r.error == IllegalCode && !(Known(code) && AllKnown(owned))
    ensures Known(code) && AllKnown(owned) ==> r.Success?
  {
    if owned == [] then Success(false)
    else if owned[0] == code then
      assert Grants(owned[0], code);
      Success(true)
    else
      match Authority.IsSubNode(owned[0], code)
      case Failure(_) =>
        Authority.IsSubNodeThrows(owned[0], code);
        assert owned[0] in owned;
        Failure(IllegalCode)
      case Success(b) =>
        if b then
          assert Grants(owned[0], code);
          Success(true)
        else
          var r := AnyGrants(owned[1..], code);
          assert forall o :: o in owned ==> o == owned[0] || o in owned[1..];
          r
  }

  /**
   * `checkIsASubordinateAuthority(code)`: passes when an owned code grants `code`, fails
   * with `不能分配超过当前账号功能权限的功能` when none does, and with `权限代码不合法` when
   * the search meets an unknown code first.
   */
  function CheckSubordinate(owned: seq<string>, code: string): (r: Result<(), ApiError>)
    ensures r.Success? ==> exists o :: o in owned && Grants(o, code)
    ensures r.Failure? ==> r.error == IllegalCode || r.error == BeyondOwned
    ensures r == Failure(IllegalCode) ==> !(Known(code) && AllKnown(owned))
    ensures r == Failure(BeyondOwned) ==> forall o :: o in owned ==> !Grants(o, code)
  {
    match AnyGrants(owned, code)
    case Failure(e) => Failure(e)
    case Success(covered) => if covered then Success(()) else Failure(BeyondOwned)
  }

  /** Over known codes the check passes exactly when some owned code grants the requested one. */
  lemma CheckSubordinateKnown(owned: seq<string>, code: string)
    requires Known(code) && AllKnown(owned)
    ensures CheckSubordinate(owned, code).Success? <==> exists o :: o in owned && Grants(o, code)
    ensures CheckSubordinate(owned, code).Failure? ==> CheckSubordinate(owned, code).error == BeyondOwned
  {
  }

  // ---------------------------------------------------------------------
  // The first pipeline: filter, map (trim + check), distinct

  /** `filter(trimToNull(s) != null)` then `map(s.trim())`: blank entries are dropped, the rest trimmed. */
  function Cleaned(req: seq<string>): (r: seq<string>)
    ensures |r| <= |req|
  {
    if req == [] then [] else CleanedEntry(req[0]) + Cleaned(req[1..])
  }

  function CleanedEntry(x: string): seq<string> {
    if IsBlank(x) then [] else [JavaTrim(x)]
  }

  /**
   * Cleaning works entry by entry, in request order: a concatenation of requests cleans
   * to the concatenation of their cleaned entries.
   */
  lemma {:induction false} CleanedConcat(a: seq<string>, b: seq<string>)
    ensures Cleaned(a + b) == Cleaned(a) + Cleaned(b)
  {
    if a == [] {
      assert a + b == b;
    } else {
      var h := CleanedEntry(a[0]);
      assert (a + b)[1..] == a[1..] + b;
      assert (a + b)[0] == a[0];
      calc {
        Cleaned(a + b);
        h + Cleaned(a[1..] + b);
        { CleanedConcat(a[1..], b); }
        h + (Cleaned(a[1..]) + Cleaned(b));
        (h + Cleaned(a[1..])) + Cleaned(b);
        Cleaned(a) + Cleaned(b);
      }
    }
  }

  /** A single entry cleans to nothing when blank and to its trim otherwise. */
  lemma CleanedOne(x: string)
    ensures Cleaned([x]) == if IsBlank(x) then [] else [JavaTrim(x)]
  {
    assert [x][1..] == [];
  }

  /** Every cleaned entry is the trim of a non-blank request entry. */
  lemma {:induction false} CleanedFromRequest(req: seq<string>)
    ensures forall x :: x in Cleaned(req) ==> exists y :: y in req && !IsBlank(y) && x == JavaTrim(y)
  {
    if req != [] {
      CleanedFromRequest(req[1..]);
      var head := if IsBlank(req[0]) then [] else [JavaTrim(req[0])];
      var rest := Cleaned(req[1..]);
      assert Cleaned(req) == head + rest;
      forall x | x in Cleaned(req) ensures exists y :: y in req && !IsBlank(y) && x == JavaTrim(y) {
        if x in head {
          assert req[0] in req;
        } else {
          var y :| y in req[1..] && !IsBlank(y) && x == JavaTrim(y);
          assert y in req;
        }
      }
    }
  }

  /**
   * The check applied to the cleaned entries as the lazy stream meets them, left to
   * right (repeated entries included), the first failure being the one thrown.
   */
  function CheckAll(owned: seq<string>, codes: seq<string>): (r: Result<(), ApiError>)
    ensures r.Success? <==> forall i :: 0 <= i < |codes| ==> CheckSubordinate(owned, codes[i]).Success?
    ensures r.Failure? ==> exists i :: (0 <= i < |codes| && CheckSubordinate(owned, codes[i]) == Failure(r.error)
      && forall j :: 0 <= j < i ==> CheckSubordinate(owned, codes[j]).Success?)
  {
    if codes == [] then Success(())
    else
      match CheckSubordinate(owned, codes[0])
      case Failure(e) => Failure(e)
      case Success(_) =>
        var r := CheckAll(owned, codes[1..]);
        assert forall i :: 1 <= i < |codes| ==> codes[i] == codes[1..][i - 1];
        assert r.Failure? ==> exists i :: (0 <= i < |codes| && CheckSubordinate(owned, codes[i]) == Failure(r.error)
          && forall j :: 0 <= j < i ==> CheckSubordinate(owned, codes[j]).Success?) by {
          if r.Failure? {
            var k :| 0 <= k < |codes[1..]| && CheckSubordinate(owned, codes[1..][k]) == Failure(r.error)
              && forall j :: 0 <= j < k ==> CheckSubordinate(owned, codes[1..][j]).Success?;
            assert CheckSubordinate(owned, codes[k + 1]) == Failure(r.error);
            assert forall j :: 0 <= j < k + 1 ==> CheckSubordinate(owned, codes[j]).Success? by {
              forall j | 0 <= j < k + 1 ensures CheckSubordinate(owned, codes[j]).Success? {
                if j > 0 {
                  assert codes[j] == codes[1..][j - 1];
                }
              }
            }
          }
        }
        r
  }

  /**
   * `distinct()`: the first occurrence of each element, in encounter order: each element
   * once, and two kept elements in the order in which they first occur in `s`.
   */
  function Distinct(s: seq<string>): (r: seq<string>)
    ensures forall x :: x in r <==> x in s
    ensures NoDuplicates(r)
    ensures forall i, j :: 0 <= i < j < |r| ==> IndexOf(s, r[i]) < IndexOf(s, r[j])
    ensures |r| <= |s|
  {
    if s == [] then []
    else
      var init := s[..|s| - 1];
      var d := Distinct(init);
      var last := s[|s| - 1];
      assert s == init + [last];
      forall x | x in init ensures IndexOf(s, x) == IndexOf(init, x) {
        IndexOfPrefix(init, [last], x);
      }
      if last in d then d
      else
        assert IndexOf(s, last) == |init|;
        assert forall i :: 0 <= i < |d| ==> d[i] in init;
        d + [last]
  }

  /** An element of `a` is first found in `a + b` where it is first found in `a`. */
  lemma IndexOfPrefix(a: seq<string>, b: seq<string>, x: string)
    requires x in a
    ensures IndexOf(a + b, x) == IndexOf(a, x)
  {
    assert (a + b)[IndexOf(a, x)] == x;
  }

  lemma {:induction false} DistinctOfDistinct(s: seq<string>)
    requires NoDuplicates(s)
    ensures Distinct(s) == s
  {
    if s != [] {
      var init := s[..|s| - 1];
      assert NoDuplicates(init);
      DistinctOfDistinct(init);
      assert s[|s| - 1] !in init;
    }
  }

  // ---------------------------------------------------------------------
  // The second pipeline: keep the codes no other listed code is above

  /**
   * `anyMatch` over `all` of `isSubNode(auth, checked)` (the `noneMatch` of the filter,
   * negated), an exception becoming `权限代码不合法`.
   */
  function HasAncestorIn(all: seq<string>, checked: string): (r: Result<bool, ApiError>)
    ensures r == Success(true) ==> exists a :: a in all && Authority.IsSubNode(a, checked) == Success(true)
    ensures r == Success(false) ==> forall a :: a in all ==> Authority.IsSubNode(a, checked) == Success(false)
    ensures r.Failure? ==> r.error == IllegalCode
    ensures AllKnown(all) && Known(checked) ==> r.Success?
    ensures r.Success? && all != [] ==> Known(all[0]) && Known(checked)
  {
    if all == [] then Success(false)
    else
      match Authority.IsSubNode(all[0], checked)
      case Failure(_) =>
        assert all[0] in all;
        Failure(IllegalCode)
      case Success(b) =>
        if b then Success(true)
        else
          var r := HasAncestorIn(all[1..], checked);
          assert forall a :: a in all ==> a == all[0] || a in all[1..];
          r
  }

  /** Over known codes, the search answers exactly whether some listed code is a proper ancestor. */
  lemma HasAncestorInKnown(all: seq<string>, checked: string)
    requires AllKnown(all) && Known(checked)
    ensures HasAncestorIn(all, checked) == Success(exists a :: a in all && Authority.IsSubNode(a, checked) == Success(true))
  {
    var r := HasAncestorIn(all, checked);
    assert r.Success?;
    if !r.value {
      assert forall a :: a in all ==> Authority.IsSubNode(a, checked) != Success(true);
    }
  }

  /** The `filter` of the second pipeline over `rest`, each element checked against all of `all`. */
  function KeepRoots(all: seq<string>, rest: seq<string>): (r: Result<seq<string>, ApiError>)
    ensures r.Success? ==> forall x :: x in r.value <==> x in rest && HasAncestorIn(all, x) == Success(false)
    ensures r.Success? ==> forall x :: x in rest ==> HasAncestorIn(all, x).Success?
    ensures r.Success? && NoDuplicates(rest) ==> NoDuplicates(r.value)
    ensures r.Success? ==> IsSubseq(r.value, rest)
    ensures r.Failure? ==> r.error == IllegalCode
  {
    if rest == [] then Success([])
    else
      match HasAncestorIn(all, rest[0])
      case Failure(e) => Failure(e)
      case Success(b) =>
        match KeepRoots(all, rest[1..])
        case Failure(e) => Failure(e)
        case Success(t) =>
          assert forall x :: x in rest ==> x == rest[0] || x in rest[1..];
          assert NoDuplicates(rest) ==> NoDuplicates(rest[1..]) && rest[0] !in rest[1..];
          Success(if b then t else [rest[0]] + t)
  }

  /** A list none of whose codes has an ancestor in `all` is kept whole. */
  lemma {:induction false} KeepAllRoots(all: seq<string>, rest: seq<string>)
    requires forall x :: x in rest ==> HasAncestorIn(all, x) == Success(false)
    ensures KeepRoots(all, rest) == Success(rest)
  {
    if rest != [] {
      KeepAllRoots(all, rest[1..]);
      assert HasAncestorIn(all, rest[0]) == Success(false);
      assert [rest[0]] + rest[1..] == rest;
    }
  }

  /**
   * The list stored for a non-null request: the cleaned entries all pass the check, and
   * the distinct ones with no proper ancestor among them remain, in first-seen order.
   */
  function SanitizedList(owned: seq<string>, req: seq<string>): (r: Result<seq<string>, ApiError>)
    ensures r.Failure? ==> r.error == IllegalCode || r.error == BeyondOwned
    ensures CheckAll(owned, Cleaned(req)).Failure? ==> r == Failure(CheckAll(owned, Cleaned(req)).error)
    ensures CheckAll(owned, Cleaned(req)).Success? && r.Failure? ==> r.error == IllegalCode
    ensures CheckAll(owned, Cleaned(req)).Success? && AllKnown(Cleaned(req)) ==> r.Success?
    ensures r.Success? ==> IsSubseq(r.value, Distinct(Cleaned(req)))
  {
    var cleaned := Cleaned(req);
    var checked := CheckAll(owned, cleaned);
    if checked.Failure? then Failure(checked.error)
    else
      var d := Distinct(cleaned);
      if AllKnown(cleaned) then
        assert AllKnown(d);
        KeepRootsKnown(d, d);
        KeepRoots(d, d)
      else
        KeepRoots(d, d)
  }

  /**
   * `toSanitizeAuthorityCommaSeparatorStr`: a null list leaves the column alone (null),
   * an empty one clears it, any other is sanitised and joined with `","`.
   */
  function Sanitize(owned: seq<string>, req: Option<seq<string>>): (r: Result<Option<string>, ApiError>)
    ensures req.None? ==> r == Success(None)
    ensures req == Some([]) ==> r == Success(Some(""))
    ensures req.Some? ==> r.Success? ==> r.value.Some?
    ensures req.Some? && req.value != [] && r.Success? ==>
      exists roots :: r.value == Some(Join(",", roots)) && IsRootsOf(roots, Distinct(Cleaned(req.value)))
    ensures req.Some? && req.value != [] ==>
      (r.Failure? <==> SanitizedList(owned, req.value).Failure?) &&
      (r.Failure? ==> r.error == SanitizedList(owned, req.value).error)
  {
    match req
    case None => Success(None)
    case Some(list) =>
      if list == [] then Success(Some(""))
      else
        match SanitizedList(owned, list)
        case Failure(e) => Failure(e)
        case Success(roots) =>
          SanitizedListSound(owned, list);
          Success(Some(Join(",", roots)))
  }

  // ---------------------------------------------------------------------
  // What a stored list means

  /**
   * `roots` lists, once each and in their order in `d`, exactly the codes of `d` with no
   * proper ancestor in `d`.
   */
  ghost predicate IsRootsOf(roots: seq<string>, d: seq<string>) {
    NoDuplicates(roots) && IsSubseq(roots, d) &&
    forall x :: x in roots <==> x in d && forall y :: y in d ==> Authority.IsSubNode(y, x) == Success(false)
  }

  lemma {:induction false} SubseqMembers(a: seq<string>, b: seq<string>)
    requires IsSubseq(a, b)
    ensures forall x :: x in a ==> x in b
    decreases |b|
  {
    if a != [] {
      if IsSubseq(a, b[1..]) {
        SubseqMembers(a, b[1..]);
      } else {
        SubseqMembers(a[1..], b[1..]);
        assert forall x :: x in a ==> x == a[0] || x in a[1..];
      }
    }
  }

  /**
   * Over a list without repetition, a subsequence is fixed by its members: two
   * subsequences with the same members are equal.
   */
  lemma {:induction false} SubseqUnique(a: seq<string>, c: seq<string>, b: seq<string>)
    requires NoDuplicates(b) && IsSubseq(a, b) && IsSubseq(c, b)
    requires forall x :: x in a <==> x in c
    ensures a == c
    decreases |b|
  {
    if b != [] {
      var tail := b[1..];
      assert NoDuplicates(tail);
      assert b[0] !in tail;
      if IsSubseq(a, tail) {
        SubseqMembers(a, tail);
      }
      if IsSubseq(c, tail) {
        SubseqMembers(c, tail);
      }
      if b[0] in a {
        assert a[0] == b[0] && IsSubseq(a[1..], tail);
        assert c[0] == b[0] && IsSubseq(c[1..], tail);
        SubseqMembers(a[1..], tail);
        SubseqMembers(c[1..], tail);
        forall x ensures x in a[1..] <==> x in c[1..] {
          assert x in a <==> x == a[0] || x in a[1..];
          assert x in c <==> x == c[0] || x in c[1..];
        }
        SubseqUnique(a[1..], c[1..], tail);
        assert a == [a[0]] + a[1..] && c == [c[0]] + c[1..];
      } else {
        assert a != [] ==> a[0] in a;
        assert c != [] ==> c[0] in c;
        SubseqUnique(a, c, tail);
      }
    }
  }

  /** The roots of a list without repetition are determined: there is one list of them. */
  lemma RootsUnique(r1: seq<string>, r2: seq<string>, d: seq<string>)
    requires NoDuplicates(d) && IsRootsOf(r1, d) && IsRootsOf(r2, d)
    ensures r1 == r2
  {
    SubseqUnique(r1, r2, d);
  }

  /**
   * A list that sanitises successfully has only known codes, each granted by the user's
   * own, and what remains is the minimal part of its distinct cleaned entries.
   */
  lemma SanitizedListSound(owned: seq<string>, req: seq<string>)
    requires SanitizedList(owned, req).Success?
    ensures forall x :: x in Cleaned(req) ==> Known(x) && exists o :: o in owned && Grants(o, x)
    ensures IsRootsOf(SanitizedList(owned, req).value, Distinct(Cleaned(req)))
  {
    var cleaned := Cleaned(req);
    var d := Distinct(cleaned);
    var roots := SanitizedList(owned, req).value;
    assert KeepRoots(d, d) == Success(roots);
    forall x | x in cleaned ensures Known(x) && exists o :: o in owned && Grants(o, x) {
      var k :| 0 <= k < |cleaned| && cleaned[k] == x;
      assert CheckSubordinate(owned, cleaned[k]).Success?;
      assert x in d;
      assert HasAncestorIn(d, x).Success?;
    }
    forall x | x in d ensures HasAncestorIn(d, x) == Success(false) <==> forall y :: y in d ==> Authority.IsSubNode(y, x) == Success(false) {
      assert HasAncestorIn(d, x).Success?;
      assert AllKnown(d) by {
        forall y | y in d ensures Known(y) {
          assert y in cleaned;
        }
      }
      HasAncestorInKnown(d, x);
      forall y | y in d ensures Authority.IsSubNode(y, x).Success? {
        Authority.IsSubNodeThrows(y, x);
      }
    }
  }

  /**
   * Nothing is lost by keeping only the topmost codes: every code of `d` is one of the
   * roots or lies below one of them.
   */
  lemma {:induction false} RootsCover(roots: seq<string>, d: seq<string>, x: string)
    requires IsRootsOf(roots, d) && AllKnown(d) && x in d
    ensures exists r :: r in roots && Grants(r, x)
    decreases Authority.Depth(Authority.Resolve(x).value)
  {
    if forall y :: y in d ==> Authority.IsSubNode(y, x) == Success(false) {
      assert x in roots && Grants(x, x);
    } else {
      var y :| y in d && Authority.IsSubNode(y, x) != Success(false);
      var k :| 0 <= k < |d| && d[k] == y;
      assert Known(y) && Known(x);
      Authority.IsSubNodeMeansDescendant(y, x);
      Authority.AncestorShallower(Authority.Resolve(y).value, Authority.Resolve(x).value);
      RootsCover(roots, d, y);
      var r :| r in roots && Grants(r, y);
      if r != y {
        Authority.IsSubNodeTransitive(r, y, x);
      }
      assert Grants(r, x);
    }
  }

  /** Each sanitised code is non-empty, comma-free and trimmed, so the stored join splits back into the list. */
  lemma {:induction false} SanitizedListReadsBack(owned: seq<string>, req: seq<string>, row: RoleRow)
    requires SanitizedList(owned, req).Success?
    requires row.authorities == Some(Join(",", SanitizedList(owned, req).value))
    ensures SplitTrim(Join(",", SanitizedList(owned, req).value), ',') == SanitizedList(owned, req).value
    ensures FromRow(row).authorities == SanitizedList(owned, req).value
  {
    var roots := SanitizedList(owned, req).value;
    SanitizedListSound(owned, req);
    forall i | 0 <= i < |roots| ensures roots[i] != [] && ',' !in roots[i] && IsTrimmed(roots[i]) {
      assert roots[i] in Cleaned(req);
      Authority.ResolvedCodeShape(roots[i]);
    }
    SplitTrimJoin(roots, ',');
    StoredListRoundTrip(row, roots);
  }

  /** Known codes are left as they are by the cleaning step. */
  lemma CleanedOfKnown(codes: seq<string>)
    requires AllKnown(codes)
    ensures Cleaned(codes) == codes
  {
    forall x | x in codes ensures !IsBlank(x) && JavaTrim(x) == x {
      KnownIsClean(x);
    }
    CleanedOfClean(codes);
  }

  /** Entries that are not blank and that trimming leaves unchanged pass through cleaning. */
  lemma {:induction false} CleanedOfClean(codes: seq<string>)
    requires forall x :: x in codes ==> !IsBlank(x) && JavaTrim(x) == x
    ensures Cleaned(codes) == codes
  {
    if codes != [] {
      var c := codes[0];
      assert c in codes;
      assert !IsBlank(c) && JavaTrim(c) == c;
      assert forall x :: x in codes[1..] ==> x in codes;
      CleanedOfClean(codes[1..]);
      assert Cleaned(codes) == [c] + Cleaned(codes[1..]);
      assert [c] + codes[1..] == codes;
    }
  }

  lemma KnownIsClean(code: string)
    requires Known(code)
    ensures !IsBlank(code) && JavaTrim(code) == code
  {
    Authority.ResolvedCodeShape(code);
  }

  /** A root has no proper ancestor among the other roots. */
  lemma RootHasNoAncestor(roots: seq<string>, d: seq<string>, x: string)
    requires AllKnown(roots) && IsRootsOf(roots, d) && x in roots
    ensures HasAncestorIn(roots, x) == Success(false)
  {
    forall y | y in roots ensures Authority.IsSubNode(y, x) != Success(true) {
      assert y in d;
    }
    HasAncestorInKnown(roots, x);
  }

  /** Known, granted codes none of which lies below another sanitise to themselves. */
  lemma RootsAreFixed(owned: seq<string>, roots: seq<string>, d: seq<string>)
    requires roots != [] && AllKnown(roots) && IsRootsOf(roots, d)
    requires forall i :: 0 <= i < |roots| ==> CheckSubordinate(owned, roots[i]).Success?
    ensures SanitizedList(owned, roots) == Success(roots)
  {
    CleanedOfKnown(roots);
    assert CheckAll(owned, roots).Success?;
    DistinctOfDistinct(roots);
    forall x | x in roots ensures HasAncestorIn(roots, x) == Success(false) {
      RootHasNoAncestor(roots, d, x);
    }
    KeepAllRoots(roots, roots);
    assert SanitizedList(owned, roots) == KeepRoots(roots, roots);
  }

  /** The sanitised list consists of known codes that each pass the ownership check. */
  lemma SanitizedCodesPass(owned: seq<string>, req: seq<string>)
    requires SanitizedList(owned, req).Success?
    ensures AllKnown(SanitizedList(owned, req).value)
    ensures forall i :: 0 <= i < |SanitizedList(owned, req).value| ==>
      CheckSubordinate(owned, SanitizedList(owned, req).value[i]).Success?
  {
    var roots := SanitizedList(owned, req).value;
    var cleaned := Cleaned(req);
    SanitizedListSound(owned, req);
    assert CheckAll(owned, cleaned).Success?;
    forall i | 0 <= i < |roots| ensures Known(roots[i]) && CheckSubordinate(owned, roots[i]).Success? {
      assert roots[i] in cleaned;
      var k :| 0 <= k < |cleaned| && cleaned[k] == roots[i];
    }
    assert forall x :: x in roots ==> exists i :: 0 <= i < |roots| && roots[i] == x;
  }

  /**
   * Sanitising is idempotent: sending back the stored string, split at commas, gives
   * the same stored string.
   */
  lemma SanitizeIdempotent(owned: seq<string>, req: seq<string>, s: string)
    requires Sanitize(owned, Some(req)) == Success(Some(s))
    ensures Sanitize(owned, Some(SplitTrim(s, ','))) == Success(Some(s))
  {
    if req != [] {
      var roots := SanitizedList(owned, req).value;
      assert s == Join(",", roots);
      SanitizedListReadsBack(owned, req, RoleRow(0, "", Some(s), None, None, "", None));
      if roots != [] {
        SanitizedListSound(owned, req);
        SanitizedCodesPass(owned, req);
        RootsAreFixed(owned, roots, Distinct(Cleaned(req)));
      }
    }
  }

  // ---------------------------------------------------------------------
  // Examples

  /**
   * A request with a code that names no constant never succeeds, whatever the user
   * owns: the ownership check or the minimisation meets it and throws.
   */
  lemma UnknownCodeFails(owned: seq<string>, req: seq<string>, x: string)
    requires x in Cleaned(req) && !Known(x)
    ensures Sanitize(owned, Some(req)).Failure?
  {
    if SanitizedList(owned, req).Success? {
      SanitizedListSound(owned, req);
    }
  }

  /**
   * When the first code to be checked names no constant and the user's own codes are
   * known, the request fails with `400 权限代码不合法`.
   */
  lemma UnknownCodeRejected(owned: seq<string>, req: seq<string>)
    requires owned != [] && AllKnown(owned)
    requires Cleaned(req) != [] && !Known(Cleaned(req)[0])
    ensures Sanitize(owned, Some(req)) == Failure(IllegalCode)
  {
    var x := Cleaned(req)[0];
    assert owned[0] != x;
    Authority.IsSubNodeThrows(owned[0], x);
    assert AnyGrants(owned, x) == Failure(IllegalCode);
    assert CheckAll(owned, Cleaned(req)) == Failure(IllegalCode);
  }

  /**
   * When the first code to be checked is known but no owned code grants it, the request
   * fails with `403 不能分配超过当前账号功能权限的功能`.
   */
  lemma UngrantedCodeForbidden(owned: seq<string>, req: seq<string>)
    requires AllKnown(owned)
    requires Cleaned(req) != [] && Known(Cleaned(req)[0])
    requires forall o :: o in owned ==> !Grants(o, Cleaned(req)[0])
    ensures Sanitize(owned, Some(req)) == Failure(BeyondOwned)
  {
    var x := Cleaned(req)[0];
    CheckSubordinateKnown(owned, x);
    assert CheckAll(owned, Cleaned(req)) == Failure(BeyondOwned);
  }

  /** Over known codes the second pipeline never throws. */
  lemma {:induction false} KeepRootsKnown(all: seq<string>, rest: seq<string>)
    requires AllKnown(all) && AllKnown(rest)
    ensures KeepRoots(all, rest).Success?
  {
    if rest != [] {
      assert rest[0] in rest;
      assert forall x :: x in rest[1..] ==> x in rest;
      KeepRootsKnown(all, rest[1..]);
    }
  }

  function Count(s: seq<string>, x: string): nat {
    if s == [] then 0 else (if s[0] == x then 1 else 0) + Count(s[1..], x)
  }

  lemma {:induction false} CountAllEqual(s: seq<string>, x: string)
    requires forall y :: y in s ==> y == x
    ensures Count(s, x) == |s|
  {
    if s != [] {
      assert s[0] in s;
      assert forall y :: y in s[1..] ==> y in s;
      CountAllEqual(s[1..], x);
    }
  }

  lemma {:induction false} CountNoDuplicates(s: seq<string>, x: string)
    requires NoDuplicates(s)
    ensures Count(s, x) <= 1
    ensures x !in s ==> Count(s, x) == 0
  {
    if s != [] {
      assert NoDuplicates(s[1..]);
      CountNoDuplicates(s[1..], x);
      assert s[0] !in s[1..];
    }
  }

  /** A list without repetition whose only member is `x` is `[x]`. */
  lemma OnlyMember(s: seq<string>, x: string)
    requires NoDuplicates(s) && x in s && forall y :: y in s ==> y == x
    ensures s == [x]
  {
    CountAllEqual(s, x);
    CountNoDuplicates(s, x);
    assert s[0] in s;
  }

  /**
   * A request of known codes, each granted by a known owned code, always sanitises, to
   * the minimal part of its distinct entries.
   */
  lemma SanitizedListOfKnown(owned: seq<string>, req: seq<string>)
    requires AllKnown(owned) && AllKnown(req)
    requires forall x :: x in req ==> exists o :: o in owned && Grants(o, x)
    ensures SanitizedList(owned, req).Success?
    ensures IsRootsOf(SanitizedList(owned, req).value, Distinct(req))
  {
    CleanedOfKnown(req);
    GrantedPassCheck(owned, req);
    DistinctOfKnown(req);
    KnownSanitizes(owned, req);
    RootsOfKnown(owned, req);
  }

  /** With nothing blank to drop, the stored list is the roots of the distinct entries themselves. */
  lemma RootsOfKnown(owned: seq<string>, req: seq<string>)
    requires Cleaned(req) == req && SanitizedList(owned, req).Success?
    ensures IsRootsOf(SanitizedList(owned, req).value, Distinct(req))
  {
    SanitizedListSound(owned, req);
  }

  lemma GrantedPassCheck(owned: seq<string>, req: seq<string>)
    requires AllKnown(owned) && AllKnown(req)
    requires forall x :: x in req ==> exists o :: o in owned && Grants(o, x)
    ensures CheckAll(owned, req).Success?
  {
    forall i | 0 <= i < |req| ensures CheckSubordinate(owned, req[i]).Success? {
      assert req[i] in req;
      CheckSubordinateKnown(owned, req[i]);
    }
  }

  lemma DistinctOfKnown(req: seq<string>)
    requires AllKnown(req)
    ensures AllKnown(Distinct(req))
  {
    var d := Distinct(req);
    assert forall x :: x in d ==> x in req;
  }

  lemma KnownSanitizes(owned: seq<string>, req: seq<string>)
    requires AllKnown(req) && CheckAll(owned, req).Success? && AllKnown(Distinct(req))
    ensures SanitizedList(owned, req).Success?
  {
    CleanedOfKnown(req);
    var d := Distinct(req);
    KeepRootsKnown(d, d);
  }

  /**
   * A module sent together with its own sub-functions is stored alone: when `m` is a
   * proper ancestor of `f1` and `f2` and the user's codes grant all three, the list
   * `m, f1, f2, m` is stored as `m`.
   */
  lemma ModuleAbsorbsItsFunctions(owned: seq<string>, m: string, f1: string, f2: string)
    requires AllKnown(owned) && Known(m) && Known(f1) && Known(f2)
    requires Authority.IsSubNode(m, f1) == Success(true) && Authority.IsSubNode(m, f2) == Success(true)
    requires exists o :: o in owned && Grants(o, m)
    requires exists o :: o in owned && Grants(o, f1)
    requires exists o :: o in owned && Grants(o, f2)
    ensures Sanitize(owned, Some([m, f1, f2, m])) == Success(Some(m))
  {
    ExampleRequestGranted(owned, m, f1, f2);
    SanitizedListOfKnown(owned, [m, f1, f2, m]);
    ModuleIsTheOnlyRoot(m, f1, f2, SanitizedList(owned, [m, f1, f2, m]).value);
  }

  lemma ExampleRequestGranted(owned: seq<string>, m: string, f1: string, f2: string)
    requires Known(m) && Known(f1) && Known(f2)
    requires exists o :: o in owned && Grants(o, m)
    requires exists o :: o in owned && Grants(o, f1)
    requires exists o :: o in owned && Grants(o, f2)
    ensures AllKnown([m, f1, f2, m])
    ensures forall x :: x in [m, f1, f2, m] ==> exists o :: o in owned && Grants(o, x)
  {
  }

  lemma ModuleIsTheOnlyRoot(m: string, f1: string, f2: string, roots: seq<string>)
    requires Known(m) && Known(f1) && Known(f2)
    requires Authority.IsSubNode(m, f1) == Success(true) && Authority.IsSubNode(m, f2) == Success(true)
    requires IsRootsOf(roots, Distinct([m, f1, f2, m]))
    ensures Join(",", roots) == m
  {
    var d := Distinct([m, f1, f2, m]);
    ExampleMembers(m, f1, f2);
    ModuleIsRoot(m, f1, f2, roots, d);
    FunctionsAreNotRoots(m, f1, f2, roots, d);
    OnlyMember(roots, m);
  }

  lemma ExampleMembers(m: string, f1: string, f2: string)
    ensures forall y :: y in Distinct([m, f1, f2, m]) ==> y == m || y == f1 || y == f2
    ensures m in Distinct([m, f1, f2, m])
  {
    var req := [m, f1, f2, m];
    assert m == req[0];
  }

  lemma ModuleIsRoot(m: string, f1: string, f2: string, roots: seq<string>, d: seq<string>)
    requires Known(m) && Known(f1) && Known(f2)
    requires Authority.IsSubNode(m, f1) == Success(true) && Authority.IsSubNode(m, f2) == Success(true)
    requires IsRootsOf(roots, d) && m in d
    requires forall y :: y in d ==> y == m || y == f1 || y == f2
    ensures m in roots
  {
    Authority.IsSubNodeIrreflexive(m);
    Authority.IsSubNodeAntisymmetric(m, f1);
    Authority.IsSubNodeAntisymmetric(m, f2);
    Authority.IsSubNodeThrows(f1, m);
    Authority.IsSubNodeThrows(f2, m);
  }

  lemma FunctionsAreNotRoots(m: string, f1: string, f2: string, roots: seq<string>, d: seq<string>)
    requires Authority.IsSubNode(m, f1) == Success(true) && Authority.IsSubNode(m, f2) == Success(true)
    requires IsRootsOf(roots, d) && m in d
    requires forall y :: y in d ==> y == m || y == f1 || y == f2
    ensures forall y :: y in roots ==> y == m
  {
    forall y | y in roots ensures y == m {
      assert y in d;
    }
  }

  /**
   * Example of `ModuleAbsorbsItsFunctions`: the user module and two of its functions
   * meet its conditions, the root owning everything, so `user, user_view, user_add, user`
   * is stored as `user`.
   */
  lemma UserModuleExample(owned: seq<string>)
    requires owned == [Authority.Code(Authority.Root)]
    ensures Sanitize(owned, Some([Authority.Code(Authority.User), Authority.Code(Authority.UserView),
                                  Authority.Code(Authority.UserAdd), Authority.Code(Authority.User)]))
         == Success(Some(Authority.Code(Authority.User)))
  {
    var user, view, add := Authority.Code(Authority.User), Authority.Code(Authority.UserView), Authority.Code(Authority.UserAdd);
    UserModuleKnown();
    UserModuleTree(owned[0], user, view, add);
    assert Grants(owned[0], user) && Grants(owned[0], view) && Grants(owned[0], add);
    assert owned[0] in owned;
    ModuleAbsorbsItsFunctions(owned, user, view, add);
  }

  lemma UserModuleKnown()
    ensures Known(Authority.Code(Authority.User)) && Known(Authority.Code(Authority.UserView))
    ensures Known(Authority.Code(Authority.UserAdd)) && Known(Authority.Code(Authority.Root))
  {
    Authority.ResolveCode(Authority.Root);
    Authority.ResolveCode(Authority.User);
    Authority.ResolveCode(Authority.UserView);
    Authority.ResolveCode(Authority.UserAdd);
  }

  lemma UserModuleTree(root: string, user: string, view: string, add: string)
    requires root == Authority.Code(Authority.Root) && user == Authority.Code(Authority.User)
    requires view == Authority.Code(Authority.UserView) && add == Authority.Code(Authority.UserAdd)
    ensures Authority.IsSubNode(user, view) == Success(true)
    ensures Authority.IsSubNode(user, add) == Success(true)
    ensures Authority.IsSubNode(root, user) == Success(true)
    ensures Authority.IsSubNode(root, view) == Success(true)
    ensures Authority.IsSubNode(root, add) == Success(true)
  {
    EdgeSubNode(Authority.User, Authority.UserView, user, view);
    EdgeSubNode(Authority.User, Authority.UserAdd, user, add);
    EdgeSubNode(Authority.Root, Authority.User, root, user);
    EdgeSubNode(Authority.Root, Authority.UserView, root, view);
    EdgeSubNode(Authority.Root, Authority.UserAdd, root, add);
  }

  lemma EdgeSubNode(a: Authority.Authority, b: Authority.Authority, ca: string, cb: string)
    requires ca == Authority.Code(a) && cb == Authority.Code(b) && Authority.IsAncestor(a, b)
    ensures Authority.IsSubNode(ca, cb) == Success(true)
  {
    Authority.CodeSubNode(a, b);
  }
}
