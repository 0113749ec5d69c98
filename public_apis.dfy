/**
 * `parsePublicApis` of `SecurityProps` and of `WebSecurityProps` (the two share the
 * same body): each configured entry `[[HTTP_METHOD] API_PATH]` becomes a pair of a URI
 * pattern and an optional method; entries of any other shape are dropped.
 */
module PublicApis {
  import opened Wrappers
  import opened Strs

  /**
   * `ApiPair(uri, method)`. `HttpMethod.valueOf` accepts any name, so the method is
   * kept as its text.
   */
  datatype ApiPair = ApiPair(uri: string, httpMethod: Option<string>)

  /** One entry: one piece is a bare URI, two pieces are a method and a URI. */
  function PairOf(entry: string): (r: Option<ApiPair>)
    ensures r.Some? <==> |SplitTrim(entry, ' ')| == 1 || |SplitTrim(entry, ' ')| == 2
    ensures r.Some? ==> r.value.uri != [] && ' ' !in r.value.uri && IsTrimmed(r.value.uri)
    ensures r.Some? && r.value.httpMethod.Some? ==> r.value.httpMethod.value != [] && ' ' !in r.value.httpMethod.value
  {
    var parts := SplitTrim(entry, ' ');
    if |parts| == 1 then Some(ApiPair(parts[0], None))
    else if |parts| == 2 then Some(ApiPair(parts[1], Some(parts[0])))
    else None
  }

  /** The filter and the map for one entry: its pair, or nothing. */
  function Parsed(entry: string): (r: seq<ApiPair>)
    ensures |r| <= 1
    ensures r == [] <==> PairOf(entry).None?
    ensures r != [] ==> r[0] == PairOf(entry).value
  {
    if PairOf(entry).Some? then [PairOf(entry).value] else []
  }

  /** The entries that parse, in their configured order. */
  function ParsePublicApis(apis: seq<string>): (r: seq<ApiPair>)
    ensures |r| <= |apis|
    ensures forall p :: p in r ==> exists i :: 0 <= i < |apis| && PairOf(apis[i]) == Some(p)
  {
    if apis == [] then []
    else
      var rest := ParsePublicApis(apis[1..]);
      assert forall p :: p in rest ==> exists i :: 0 <= i < |apis| && PairOf(apis[i]) == Some(p) by {
        forall p | p in rest
          ensures exists i :: 0 <= i < |apis| && PairOf(apis[i]) == Some(p)
        {
          var j :| 0 <= j < |apis[1..]| && PairOf(apis[1..][j]) == Some(p);
          assert apis[j + 1] == apis[1..][j];
        }
      }
      Parsed(apis[0]) + rest
  }

  /** Parsing a list in two parts parses each in place: the order of entries is kept. */
  lemma {:induction false} ParseConcat(a: seq<string>, b: seq<string>)
    ensures ParsePublicApis(a + b) == ParsePublicApis(a) + ParsePublicApis(b)
    decreases |a|
  {
    if a != [] {
      assert (a + b)[0] == a[0];
      assert (a + b)[1..] == a[1..] + b;
      ParseConcat(a[1..], b);
    } else {
      assert a + b == b;
    }
  }

  /** Every entry that parses is kept. */
  lemma {:induction false} ParseKeepsEach(apis: seq<string>, i: int)
    requires 0 <= i < |apis| && PairOf(apis[i]).Some?
    ensures PairOf(apis[i]).value in ParsePublicApis(apis)
    decreases |apis|
  {
    assert ParsePublicApis(apis) == Parsed(apis[0]) + ParsePublicApis(apis[1..]);
    if i > 0 {
      ParseKeepsEach(apis[1..], i - 1);
      assert apis[1..][i - 1] == apis[i];
    } else {
      assert Parsed(apis[0]) == [PairOf(apis[0]).value];
    }
  }

  /** A clean piece of configuration: non-empty, no space, no blank at either end. */
  predicate IsPiece(s: string) {
    s != [] && ' ' !in s && IsTrimmed(s)
  }

  /** The configuration text of a pair: the method, a space and the URI, or the URI alone. */
  function Format(p: ApiPair): string {
    if p.httpMethod.Some? then p.httpMethod.value + " " + p.uri else p.uri
  }

  /** A pair written as configuration text parses back to itself. */
  lemma FormatParses(p: ApiPair)
    requires IsPiece(p.uri) && (p.httpMethod.Some? ==> IsPiece(p.httpMethod.value))
    ensures PairOf(Format(p)) == Some(p)
  {
    if p.httpMethod.Some? {
      var parts := [p.httpMethod.value, p.uri];
      assert Join([' '], parts) == p.httpMethod.value + " " + p.uri by {
        assert Join([' '], parts[1..]) == p.uri;
      }
      SplitTrimJoin(parts, ' ');
    } else {
      assert Join([' '], [p.uri]) == p.uri;
      SplitTrimJoin([p.uri], ' ');
    }
  }
}
