/**
 * The request filter that turns an `Authorization: Bearer <token>` header into an
 * authenticated principal (`auth/TokenAuthFilter.java`). The servlet request is reduced
 * to its list of headers, and what the filter does to the response to its outcome.
 */
module TokenAuthFilter {
  import opened Wrappers
  import opened Strs
  import opened AuthDto
  import opened TimedCaches
  import opened TokenAuthImpl

  const Authorization: string := "Authorization"
  const BearerPrefix: string := "Bearer "

  /**
   * What one pass through the filter does: `Proceed` calls the rest of the chain once,
   * with the principal it put in the security context, if any; `Unauthorized` resolves a
   * 401 with that reason and does not call the chain.
   */
  datatype FilterOutcome = Proceed(principal: Option<AuthData>) | Unauthorized(reason: string)

  /** `getHeaderIgnoreCase(req, name)`: the value of the first header whose name matches ignoring case. */
  function HeaderIgnoreCase(headers: seq<(string, string)>, name: string): (r: Option<string>)
    ensures r.None? <==> forall i :: 0 <= i < |headers| ==> !EqualsIgnoreCase(headers[i].0, name)
    ensures r.Some? ==> exists i :: 0 <= i < |headers| && EqualsIgnoreCase(headers[i].0, name) && headers[i].1 == r.value &&
                                   (forall j :: 0 <= j < i ==> !EqualsIgnoreCase(headers[j].0, name))
  {
    if headers == [] then None
    else if EqualsIgnoreCase(headers[0].0, name) then Some(headers[0].1)
    else
      var r := HeaderIgnoreCase(headers[1..], name);
      assert forall i :: 1 <= i < |headers| ==> headers[i] == headers[1..][i - 1];
      r
  }

  /** `doFilterInternal`. */
  function DoFilter(headers: seq<(string, string)>, cache: TimedCache<AuthData>, tokenKey: string, nowMs: nat): (o: FilterOutcome)
    reads cache, cache.entries.Values
    ensures HeaderIgnoreCase(headers, Authorization).None? ==> o == Proceed(None)
    ensures o.Proceed? && o.principal.Some? ==> o.principal.value in cache.entries.Values
    ensures o.Proceed? && o.principal.Some? ==>
      var h := HeaderIgnoreCase(headers, Authorization).value;
      StartsWith(h, BearerPrefix) && Authenticate(cache, h[|BearerPrefix|..], tokenKey, nowMs) == Success(o.principal.value)
    ensures o.Unauthorized? ==> HeaderIgnoreCase(headers, Authorization).Some?
    ensures o.Unauthorized? ==>
      var h := HeaderIgnoreCase(headers, Authorization).value;
      if StartsWith(h, BearerPrefix) then Authenticate(cache, h[|BearerPrefix|..], tokenKey, nowMs) == Failure(o.reason)
      else o.reason == "授权信息格式有误"
  {
    match HeaderIgnoreCase(headers, Authorization)
    case None => Proceed(None)
    case Some(bearer) =>
      if !StartsWith(bearer, BearerPrefix) then Unauthorized("授权信息格式有误")
      else
        match Authenticate(cache, bearer[|BearerPrefix|..], tokenKey, nowMs)
        case Failure(message) => Unauthorized(message)
        case Success(auth) => Proceed(Some(auth))
  }

  /** A header value that does not start with the bearer prefix is refused before any token check. */
  lemma BadSchemeRejected(headers: seq<(string, string)>, cache: TimedCache<AuthData>, tokenKey: string, nowMs: nat)
    requires HeaderIgnoreCase(headers, Authorization).Some?
    requires !StartsWith(HeaderIgnoreCase(headers, Authorization).value, BearerPrefix)
    ensures DoFilter(headers, cache, tokenKey, nowMs) == Unauthorized("授权信息格式有误")
  {
  }

  /**
   * A request whose `Authorization` header (the first one, matching its name in any
   * letter case) is `Bearer <token>` is decided exactly as `authenticate(token)` decides.
   */
  lemma BearerTokenAuthenticated(headers: seq<(string, string)>, token: string,
                                 cache: TimedCache<AuthData>, tokenKey: string, nowMs: nat)
    requires HeaderIgnoreCase(headers, Authorization) == Some(BearerPrefix + token)
    ensures DoFilter(headers, cache, tokenKey, nowMs) ==
      match Authenticate(cache, token, tokenKey, nowMs)
      case Success(a) => Proceed(Some(a))
      case Failure(m) => Unauthorized(m)
  {
  }
}
