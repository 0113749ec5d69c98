/**
 * Login and token refresh (`auth/AuthServiceImpl.java`): both check the caller, issue a
 * fresh pair of tokens, and store a new login record for the user in the access-token
 * cache, replacing any earlier one. The clock is a parameter (`nowMs`, milliseconds).
 */
module AuthServiceImpl {
  import opened Wrappers
  import opened Strs
  import opened Decimal
  import opened AccountStatus
  import opened RestApi
  import opened TokenService
  import opened Passwords
  import opened Mappers
  import opened AuthDto
  import opened TimedCaches
  import opened TokenAuthImpl

  datatype GetTokenRequest = GetTokenRequest(username: string, password: string)

  /** The private `TokenData` pair. */
  datatype TokenData = TokenData(accessToken: string, refreshToken: string)

  /**
   * `TokenResponse`. The record declares `authorities` as a string but is handed the
   * list of the login record; the list is what is modelled.
   */
  datatype TokenResponse = TokenResponse(
    accessToken: string, refreshToken: string, expiresInSec: int,
    username: string, nickname: string, authorities: seq<string>)

  /** The payload `createToken` writes: the issuer, and an expiry `TOKEN_EXP_SEC` after the current second. */
  function IssuedPayload(username: string, tokenType: string, nowMs: nat): TokenPayload {
    TokenPayload(username, tokenType, TokenIssuer, nowMs / 1000 + TokenExpSec)
  }

  /** `createToken(username)`: an access and a refresh token sharing one expiry. */
  function CreateTokenPair(username: string, nowMs: nat, tokenKey: string): TokenData {
    TokenData(CreateToken(IssuedPayload(username, TokenTypeAccess, nowMs), tokenKey),
              CreateToken(IssuedPayload(username, TokenTypeRefresh, nowMs), tokenKey))
  }

  /**
   * Both tokens of a pair read back as issued, are distinct, and are legal exactly until
   * the end of the second `TOKEN_EXP_SEC` seconds after issue.
   */
  lemma TokenPairReadsBack(username: string, nowMs: nat, tokenKey: string, laterMs: nat)
    requires nowMs / 1000 + TokenExpSec <= MaxInt64
    ensures Parse(CreateTokenPair(username, nowMs, tokenKey).accessToken) == Success(IssuedPayload(username, TokenTypeAccess, nowMs))
    ensures Parse(CreateTokenPair(username, nowMs, tokenKey).refreshToken) == Success(IssuedPayload(username, TokenTypeRefresh, nowMs))
    ensures CreateTokenPair(username, nowMs, tokenKey).accessToken != CreateTokenPair(username, nowMs, tokenKey).refreshToken
    ensures IsLegal(CreateTokenPair(username, nowMs, tokenKey).accessToken, tokenKey, laterMs) <==> laterMs / 1000 <= nowMs / 1000 + TokenExpSec
    ensures IsLegal(CreateTokenPair(username, nowMs, tokenKey).refreshToken, tokenKey, laterMs) <==> laterMs / 1000 <= nowMs / 1000 + TokenExpSec
  {
    var a, f := IssuedPayload(username, TokenTypeAccess, nowMs), IssuedPayload(username, TokenTypeRefresh, nowMs);
    ParseCreateToken(a, tokenKey);
    ParseCreateToken(f, tokenKey);
    CreatedTokenLegal(a, tokenKey, laterMs);
    CreatedTokenLegal(f, tokenKey, laterMs);
  }

  /** Tokens carry no issue instant finer than the second: two pairs issued within one second are equal. */
  lemma SameSecondSamePair(username: string, nowMs: nat, otherMs: nat, tokenKey: string)
    requires nowMs / 1000 == otherMs / 1000
    ensures CreateTokenPair(username, nowMs, tokenKey) == CreateTokenPair(username, otherMs, tokenKey)
  {
    assert IssuedPayload(username, TokenTypeAccess, nowMs) == IssuedPayload(username, TokenTypeAccess, otherMs);
    assert IssuedPayload(username, TokenTypeRefresh, nowMs) == IssuedPayload(username, TokenTypeRefresh, otherMs);
  }

  /**
   * The checks `updateToken` makes on the token alone: legal under the key and in date,
   * readable, and of the refresh type. A token that is legal always decodes, so a
   * failure of `parse` here is one of its claims.
   */
  function RefreshPayload(refreshToken: string, tokenKey: string, nowMs: nat): (r: Result<TokenPayload, ApiError>)
    ensures r.Success? <==> IsLegal(refreshToken, tokenKey, nowMs) && Parse(refreshToken).Success? &&
                            Parse(refreshToken).value.tokenType == TokenTypeRefresh
    ensures r.Success? ==> r.value == Parse(refreshToken).value
  {
    if !IsLegal(refreshToken, tokenKey, nowMs) then Failure(ApiException(Unauthorized, "Token 不合法"))
    else
      match Parse(refreshToken)
      case Failure(e) =>
        if e.Malformed? then assert false; Failure(ServerError("")) else Failure(ServerError(ParseErrorMessage(e)))
      case Success(payload) =>
        if payload.tokenType != TokenTypeRefresh then Failure(ApiException(Unauthorized, "刷新请使用 Refresh Token"))
        else Success(payload)
  }

  /** An issued refresh token passes the token checks until it expires; an access token never does. */
  lemma IssuedRefreshTokenPasses(p: TokenPayload, tokenKey: string, nowMs: nat)
    requires MinInt64 <= p.exp <= MaxInt64
    ensures RefreshPayload(CreateToken(p, tokenKey), tokenKey, nowMs).Success? <==>
      p.tokenType == TokenTypeRefresh && nowMs / 1000 <= p.exp
  {
    CreatedTokenLegal(p, tokenKey, nowMs);
    ParseCreateToken(p, tokenKey);
  }

  /** The login record `addLoginCache` stores: the user row with the new tokens set. */
  ghost predicate LoginRecordOf(a: AuthData, row: AuthRow, t: TokenData)
    reads a
  {
    a.userId == row.userId && a.username == row.username && a.hashedPassword == row.hashedPassword &&
    a.nickname == row.nickname && a.status == row.status && a.authorities == SplitCommaList(row.authorities) &&
    a.accessToken == Some(t.accessToken) && a.refreshToken == Some(t.refreshToken)
  }

  /** The response `addLoginCache` returns for that record. */
  function ResponseOf(row: AuthRow, t: TokenData): TokenResponse {
    TokenResponse(t.accessToken, t.refreshToken, TokenExpSec, row.username, row.nickname, SplitCommaList(row.authorities))
  }

  /**
   * The checks of `getToken` on the row found for the username: no row, a disabled
   * account, or a password that does not match the stored digest, in that order.
   */
  function LoginCheck(row: Option<AuthRow>, password: string): (r: Result<AuthRow, ApiError>)
    ensures r.Success? <==> row.Some? && row.value.status != Some(Disabled) && Matches(password, row.value.hashedPassword)
    ensures r.Success? ==> r.value == row.value
    ensures r.Failure? ==> r.error.ApiException? && r.error.status == Unauthorized
  {
    if row.None? then Failure(ApiException(Unauthorized, "用户名或密码错误"))
    else if row.value.status == Some(Disabled) then Failure(ApiException(Unauthorized, "账号已禁用"))
    else if !Matches(password, row.value.hashedPassword) then Failure(ApiException(Unauthorized, "用户名或密码错误"))
    else Success(row.value)
  }

  /** An unknown username and a wrong password for an enabled account are told apart by nothing. */
  lemma WrongPasswordLooksLikeUnknownUser(row: AuthRow, raw: string, salt: string, password: string)
    requires row.hashedPassword == Passwords.Encode(raw, salt) && password != raw
    requires row.status != Some(Disabled)
    ensures LoginCheck(Some(row), password) == LoginCheck(None, password)
  {
    if Matches(password, row.hashedPassword) {
      MatchesOnlyOwn(raw, password, salt);
    }
  }

  /** The right password for an enabled account logs in; a disabled account is refused even with it. */
  lemma RightPasswordLogsIn(row: AuthRow, raw: string, salt: string)
    requires row.hashedPassword == Passwords.Encode(raw, salt)
    ensures row.status != Some(Disabled) ==> LoginCheck(Some(row), raw) == Success(row)
    ensures row.status == Some(Disabled) ==> LoginCheck(Some(row), raw) == Failure(ApiException(Unauthorized, "账号已禁用"))
  {
    MatchesEncode(raw, salt);
  }

  class AuthServiceImpl {
    const tokenKey: string
    const accessTokenCache: TimedCache<AuthData>
    const authMapper: Database

    constructor (tokenKey: string, accessTokenCache: TimedCache<AuthData>, authMapper: Database)
      ensures this.tokenKey == tokenKey && this.accessTokenCache == accessTokenCache && this.authMapper == authMapper
    {
      this.tokenKey := tokenKey;
      this.accessTokenCache := accessTokenCache;
      this.authMapper := authMapper;
    }

    /** Every login record is stored under its own username. */
    ghost predicate CacheKeyedByUsername()
      reads this, accessTokenCache, accessTokenCache.entries.Values
    {
      forall k | k in accessTokenCache.entries :: accessTokenCache.entries[k].username == k
    }

    /** The outcome of the checks of `getToken`; usernames are compared in lower case. */
    function LoginChecked(req: GetTokenRequest): Result<AuthRow, ApiError>
      requires authMapper.UniqueUsernames()
      reads this, authMapper
    {
      LoginCheck(authMapper.SelectAuthByUsername(ToLower(req.username)), req.password)
    }

    /**
     * The checks of `updateToken`, in order: those on the token itself, then a login
     * record whose refresh token it is, and a user of that name who still exists and is
     * not disabled. The result is the user's current row.
     */
    function RefreshChecked(refreshToken: string, nowMs: nat): (r: Result<AuthRow, ApiError>)
      requires authMapper.UniqueUsernames()
      reads this, accessTokenCache, accessTokenCache.entries.Values, authMapper
      ensures r.Success? ==> RefreshPayload(refreshToken, tokenKey, nowMs).Success? &&
                             r.value.username == RefreshPayload(refreshToken, tokenKey, nowMs).value.username
    {
      match RefreshPayload(refreshToken, tokenKey, nowMs)
      case Failure(e) => Failure(e)
      case Success(payload) =>
        match accessTokenCache.Get(payload.username)
        case None => Failure(ApiException(Unauthorized, "Token 已失效"))
        case Some(cached) =>
          if cached.refreshToken != Some(refreshToken) then Failure(ApiException(Unauthorized, "Token 已废弃"))
          else
            match authMapper.SelectAuthByUsername(payload.username)
            case None => Failure(ApiException(Unauthorized, "无效的 Token"))
            case Some(row) =>
              if row.status == Some(Disabled) then Failure(ApiException(Unauthorized, "账号已禁用"))
              else Success(row)
    }

    /** `getToken(req)`. */
    method GetToken(req: GetTokenRequest, nowMs: nat) returns (r: Result<TokenResponse, ApiError>)
      requires authMapper.UniqueUsernames()
      modifies accessTokenCache
      ensures LoginChecked(req).Failure? ==>
        r == Failure(LoginChecked(req).error) && accessTokenCache.entries == old(accessTokenCache.entries)
      ensures LoginChecked(req).Success? ==>
        var row, tokens := LoginChecked(req).value, CreateTokenPair(ToLower(req.username), nowMs, tokenKey);
        row.username == ToLower(req.username) && row.username in accessTokenCache.entries &&
        fresh(accessTokenCache.entries[row.username]) &&
        accessTokenCache.entries == old(accessTokenCache.entries)[row.username := accessTokenCache.entries[row.username]] &&
        LoginRecordOf(accessTokenCache.entries[row.username], row, tokens) &&
        r == Success(ResponseOf(row, tokens))
      ensures old(CacheKeyedByUsername()) ==> CacheKeyedByUsername()
      ensures r.Success? && nowMs / 1000 + TokenExpSec <= MaxInt64 ==>
        Authenticate(accessTokenCache, r.value.accessToken, tokenKey, nowMs) == Success(accessTokenCache.entries[r.value.username])
    {
      var username := ToLower(req.username);
      var found := authMapper.SelectAuthByUsername(username);
      if found.None? {
        return Failure(ApiException(Unauthorized, "用户名或密码错误"));
      }
      var row := found.value;
      if row.status == Some(Disabled) {
        return Failure(ApiException(Unauthorized, "账号已禁用"));
      }
      if !Matches(req.password, row.hashedPassword) {
        return Failure(ApiException(Unauthorized, "用户名或密码错误"));
      }
      var resp := StartSession(row, CreateTokenPair(username, nowMs, tokenKey));
      r := Success(resp);
      if nowMs / 1000 + TokenExpSec <= MaxInt64 {
        IssuedAccessTokenAuthenticates(accessTokenCache, IssuedPayload(username, TokenTypeAccess, nowMs), tokenKey, nowMs);
      }
    }

    /** `updateToken(refreshToken)`. */
    method UpdateToken(refreshToken: string, nowMs: nat) returns (r: Result<TokenResponse, ApiError>)
      requires authMapper.UniqueUsernames()
      modifies accessTokenCache
      ensures old(RefreshChecked(refreshToken, nowMs)).Failure? ==>
        r == Failure(old(RefreshChecked(refreshToken, nowMs)).error) && accessTokenCache.entries == old(accessTokenCache.entries)
      ensures old(RefreshChecked(refreshToken, nowMs)).Success? ==>
        var row := old(RefreshChecked(refreshToken, nowMs)).value;
        var tokens := CreateTokenPair(row.username, nowMs, tokenKey);
        row.username in accessTokenCache.entries && fresh(accessTokenCache.entries[row.username]) &&
        accessTokenCache.entries == old(accessTokenCache.entries)[row.username := accessTokenCache.entries[row.username]] &&
        LoginRecordOf(accessTokenCache.entries[row.username], row, tokens) &&
        r == Success(ResponseOf(row, tokens))
      ensures old(CacheKeyedByUsername()) ==> CacheKeyedByUsername()
      ensures r.Success? && r.value.refreshToken != refreshToken ==>
        RefreshChecked(refreshToken, nowMs) == Failure(ApiException(Unauthorized, "Token 已废弃"))
    {
      var checked := RefreshPayload(refreshToken, tokenKey, nowMs);
      if checked.Failure? {
        return Failure(checked.error);
      }
      var payload := checked.value;
      var cachedAuth := accessTokenCache.Get(payload.username);
      if cachedAuth.None? {
        return Failure(ApiException(Unauthorized, "Token 已失效"));
      }
      if cachedAuth.value.refreshToken != Some(refreshToken) {
        return Failure(ApiException(Unauthorized, "Token 已废弃"));
      }
      var found := authMapper.SelectAuthByUsername(payload.username);
      if found.None? {
        return Failure(ApiException(Unauthorized, "无效的 Token"));
      }
      var row := found.value;
      if row.status == Some(Disabled) {
        return Failure(ApiException(Unauthorized, "账号已禁用"));
      }
      assert RefreshChecked(refreshToken, nowMs) == Success(row);
      var resp := StartSession(row, CreateTokenPair(payload.username, nowMs, tokenKey));
      r := Success(resp);
    }

    /**
     * The common ending of `getToken` and `updateToken`: a login record built from the
     * row, given the new tokens, stored by `addLoginCache`.
     */
    method StartSession(row: AuthRow, tokens: TokenData) returns (resp: TokenResponse)
      modifies accessTokenCache
      ensures row.username in accessTokenCache.entries && fresh(accessTokenCache.entries[row.username])
      ensures accessTokenCache.entries == old(accessTokenCache.entries)[row.username := accessTokenCache.entries[row.username]]
      ensures LoginRecordOf(accessTokenCache.entries[row.username], row, tokens)
      ensures resp == ResponseOf(row, tokens)
      ensures old(CacheKeyedByUsername()) ==> CacheKeyedByUsername()
    {
      var auth := new AuthData.FromRow(row);
      auth.SetAccessToken(tokens.accessToken);
      auth.SetRefreshToken(tokens.refreshToken);
      resp := AddLoginCache(auth);
    }

    /** `addLoginCache(auth)`: store the record under its username and answer with its tokens. */
    method AddLoginCache(auth: AuthData) returns (resp: TokenResponse)
      requires auth.accessToken.Some? && auth.refreshToken.Some?
      modifies accessTokenCache
      ensures accessTokenCache.entries == old(accessTokenCache.entries)[auth.username := auth]
      ensures resp == TokenResponse(auth.accessToken.value, auth.refreshToken.value, TokenExpSec,
                                    auth.username, auth.nickname, auth.authorities)
    {
      accessTokenCache.Put(auth.username, auth);
      resp := TokenResponse(auth.accessToken.value, auth.refreshToken.value, TokenExpSec,
                            auth.username, auth.nickname, auth.authorities);
    }
  }
}
