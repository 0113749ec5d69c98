/** Access-token authentication against the login cache (`auth/TokenAuthImpl.java`). */
module TokenAuthImpl {
  import opened Wrappers
  import opened AccountStatus
  import opened Decimal
  import opened TokenService
  import opened AuthDto
  import opened TimedCaches

  /**
   * `authenticate(accessToken)`: the token must be legal, parse, be of the access type,
   * name a user with a login record, be that record's current access token, and the
   * account must not be disabled; the record is then returned. Each failure is the
   * exception message that rejects the request.
   */
  function Authenticate(cache: TimedCache<AuthData>, accessToken: string, tokenKey: string, nowMs: nat): (r: Result<AuthData, string>)
    reads cache, cache.entries.Values
    ensures !IsLegal(accessToken, tokenKey, nowMs) ==> r == Failure("Token 不合法")
    ensures r.Success? ==>
      IsLegal(accessToken, tokenKey, nowMs) && Parse(accessToken).Success? &&
      Parse(accessToken).value.tokenType == TokenTypeAccess &&
      Parse(accessToken).value.username in cache.entries &&
      r.value == cache.entries[Parse(accessToken).value.username] &&
      r.value.accessToken == Some(accessToken) && r.value.status != Some(Disabled)
    ensures (IsLegal(accessToken, tokenKey, nowMs) && Parse(accessToken).Success? &&
             Parse(accessToken).value.tokenType == TokenTypeAccess &&
             Parse(accessToken).value.username in cache.entries &&
             cache.entries[Parse(accessToken).value.username].accessToken == Some(accessToken) &&
             cache.entries[Parse(accessToken).value.username].status != Some(Disabled)) ==> r.Success?
  {
    if !IsLegal(accessToken, tokenKey, nowMs) then Failure("Token 不合法")
    else
      match Parse(accessToken)
      case Failure(e) =>
        if e.Malformed? then assert false; Failure("") else Failure(ParseErrorMessage(e))
      case Success(payload) =>
        if payload.tokenType != TokenTypeAccess then Failure("API 鉴权请使用 Access Token")
        else
          match cache.Get(payload.username)
          case None => Failure("Token 已失效")
          case Some(cached) =>
            if cached.accessToken != Some(accessToken) then Failure("Token 已废弃")
            else if cached.status == Some(Disabled) then Failure("账号已禁用")
            else Success(cached)
  }

  /** A token issued as an access token, still in date, authenticates its login record. */
  lemma IssuedAccessTokenAuthenticates(cache: TimedCache<AuthData>, p: TokenPayload, tokenKey: string, nowMs: nat)
    requires MinInt64 <= p.exp <= MaxInt64 && nowMs / 1000 <= p.exp
    requires p.tokenType == TokenTypeAccess && p.username in cache.entries
    requires cache.entries[p.username].accessToken == Some(CreateToken(p, tokenKey))
    requires cache.entries[p.username].status != Some(Disabled)
    ensures Authenticate(cache, CreateToken(p, tokenKey), tokenKey, nowMs) == Success(cache.entries[p.username])
  {
    CreatedTokenLegal(p, tokenKey, nowMs);
    ParseCreateToken(p, tokenKey);
  }

  /** A refresh token never authenticates an API call, whatever the cache holds. */
  lemma RefreshTokenRejected(cache: TimedCache<AuthData>, p: TokenPayload, tokenKey: string, nowMs: nat)
    requires MinInt64 <= p.exp <= MaxInt64 && nowMs / 1000 <= p.exp
    requires p.tokenType == TokenTypeRefresh
    ensures Authenticate(cache, CreateToken(p, tokenKey), tokenKey, nowMs) == Failure("API 鉴权请使用 Access Token")
  {
    CreatedTokenLegal(p, tokenKey, nowMs);
    ParseCreateToken(p, tokenKey);
  }

  /**
   * Once a user's login record holds a newer access token, an older one is refused as
   * discarded, even though it is itself legal and in date.
   */
  lemma SupersededTokenRejected(cache: TimedCache<AuthData>, p: TokenPayload, tokenKey: string, nowMs: nat)
    requires MinInt64 <= p.exp <= MaxInt64 && nowMs / 1000 <= p.exp
    requires p.tokenType == TokenTypeAccess && p.username in cache.entries
    requires cache.entries[p.username].accessToken != Some(CreateToken(p, tokenKey))
    ensures Authenticate(cache, CreateToken(p, tokenKey), tokenKey, nowMs) == Failure("Token 已废弃")
  {
    CreatedTokenLegal(p, tokenKey, nowMs);
    ParseCreateToken(p, tokenKey);
  }

  /** Without a login record a legal access token is refused as expired from the cache. */
  lemma LoggedOutTokenRejected(cache: TimedCache<AuthData>, p: TokenPayload, tokenKey: string, nowMs: nat)
    requires MinInt64 <= p.exp <= MaxInt64 && nowMs / 1000 <= p.exp
    requires p.tokenType == TokenTypeAccess && p.username !in cache.entries
    ensures Authenticate(cache, CreateToken(p, tokenKey), tokenKey, nowMs) == Failure("Token 已失效")
  {
    CreatedTokenLegal(p, tokenKey, nowMs);
    ParseCreateToken(p, tokenKey);
  }

  /** A disabled account is refused even with its current access token. */
  lemma DisabledAccountRejected(cache: TimedCache<AuthData>, p: TokenPayload, tokenKey: string, nowMs: nat)
    requires MinInt64 <= p.exp <= MaxInt64 && nowMs / 1000 <= p.exp
    requires p.tokenType == TokenTypeAccess && p.username in cache.entries
    requires cache.entries[p.username].accessToken == Some(CreateToken(p, tokenKey))
    requires cache.entries[p.username].status == Some(Disabled)
    ensures Authenticate(cache, CreateToken(p, tokenKey), tokenKey, nowMs) == Failure("账号已禁用")
  {
    CreatedTokenLegal(p, tokenKey, nowMs);
    ParseCreateToken(p, tokenKey);
  }
}
