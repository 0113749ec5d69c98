/**
 * The earlier login and refresh (`auth/AuthService.java`). Compared with
 * `AuthServiceImpl` it does not lower-case the username, checks no account status, and
 * keys the cache by the request's username. Its token lifetime constant and the
 * `menus()` column it reads are not defined by the code around it: the lifetime is a
 * parameter here, and the column is taken to be the role's authorities.
 */
module AuthServiceLegacy {
  import opened Wrappers
  import opened Strs
  import opened RestApi
  import opened TokenService
  import opened Passwords
  import opened Mappers
  import opened TimedCaches
  import opened SharedTokenAuth
  import opened AuthServiceImpl

  /** The two tokens, with an expiry `expirationSec` after the current second. */
  function LegacyTokenPair(username: string, nowMs: nat, expirationSec: int, tokenKey: string): TokenData {
    TokenData(CreateToken(TokenPayload(username, TokenTypeAccess, TokenIssuer, nowMs / 1000 + expirationSec), tokenKey),
              CreateToken(TokenPayload(username, TokenTypeRefresh, TokenIssuer, nowMs / 1000 + expirationSec), tokenKey))
  }

  /** The record stored after a login or refresh. */
  function RecordOf(row: AuthRow, t: TokenData): SessionRecord {
    SessionRecord(row.userId, row.username, row.nickname, row.status, SplitCommaList(row.authorities), t.accessToken, t.refreshToken)
  }

  /** The checks of the earlier `getToken`: a row for the name, and a matching password. */
  function LegacyLoginCheck(row: Option<AuthRow>, password: string): (r: Result<AuthRow, ApiError>)
    ensures r.Success? <==> row.Some? && Matches(password, row.value.hashedPassword)
    ensures r.Success? ==> r.value == row.value
  {
    if row.None? then Failure(ApiException(Unauthorized, "用户名或密码错误"))
    else if !Matches(password, row.value.hashedPassword) then Failure(ApiException(Unauthorized, "用户名或密码错误"))
    else Success(row.value)
  }

  /** Every failure of the earlier login is the same answer, whichever check failed. */
  lemma LegacyLoginFailuresAlike(row: Option<AuthRow>, password: string)
    requires LegacyLoginCheck(row, password).Failure?
    ensures LegacyLoginCheck(row, password) == LegacyLoginCheck(None, password)
  {
  }

  /** With the right password the earlier login succeeds even for a disabled account. */
  lemma DisabledAccountLogsIn(row: AuthRow, raw: string, salt: string)
    requires row.hashedPassword == Passwords.Encode(raw, salt)
    ensures LegacyLoginCheck(Some(row), raw) == Success(row)
  {
    MatchesEncode(raw, salt);
  }

  class AuthService {
    const tokenKey: string
    const expirationSec: int
    const accessTokenCache: TimedCache<SessionRecord>
    const authMapper: Database

    constructor (tokenKey: string, expirationSec: int, accessTokenCache: TimedCache<SessionRecord>, authMapper: Database)
      ensures this.tokenKey == tokenKey && this.expirationSec == expirationSec
      ensures this.accessTokenCache == accessTokenCache && this.authMapper == authMapper
    {
      this.tokenKey := tokenKey;
      this.expirationSec := expirationSec;
      this.accessTokenCache := accessTokenCache;
      this.authMapper := authMapper;
    }

    function LoginChecked(req: GetTokenRequest): Result<AuthRow, ApiError>
      requires authMapper.UniqueUsernames()
      reads this, authMapper
    {
      LegacyLoginCheck(authMapper.SelectAuthByUsername(req.username), req.password)
    }

    /**
     * The checks of the earlier `updateToken`: those on the token itself, a login record
     * whose refresh token it is, and a user of that name who still exists.
     */
    function RefreshChecked(refreshToken: string, nowMs: nat): (r: Result<(TokenPayload, AuthRow), ApiError>)
      requires authMapper.UniqueUsernames()
      reads this, accessTokenCache, authMapper
      ensures r.Success? ==> RefreshPayload(refreshToken, tokenKey, nowMs) == Success(r.value.0)
    {
      match RefreshPayload(refreshToken, tokenKey, nowMs)
      case Failure(e) => Failure(e)
      case Success(payload) =>
        match accessTokenCache.Get(payload.username)
        case None => Failure(ApiException(Unauthorized, "Token 已失效"))
        case Some(record) =>
          if record.refreshToken != refreshToken then Failure(ApiException(Unauthorized, "Token 已废弃"))
          else
            match authMapper.SelectAuthByUsername(payload.username)
            case None => Failure(ApiException(Unauthorized, "无效的 Token"))
            case Some(row) => Success((payload, row))
    }

    /** The earlier `getToken(request)`. */
    method GetToken(req: GetTokenRequest, nowMs: nat) returns (r: Result<TokenResponse, ApiError>)
      requires authMapper.UniqueUsernames()
      modifies accessTokenCache
      ensures LoginChecked(req).Failure? ==>
        r == Failure(LoginChecked(req).error) && accessTokenCache.entries == old(accessTokenCache.entries)
      ensures LoginChecked(req).Success? ==>
        var row, tokens := LoginChecked(req).value, LegacyTokenPair(req.username, nowMs, expirationSec, tokenKey);
        accessTokenCache.entries == old(accessTokenCache.entries)[req.username := RecordOf(row, tokens)] &&
        r == Success(TokenResponse(tokens.accessToken, tokens.refreshToken, expirationSec, req.username,
                                   row.nickname, SplitCommaList(row.authorities)))
    {
      var found := authMapper.SelectAuthByUsername(req.username);
      if found.None? {
        return Failure(ApiException(Unauthorized, "用户名或密码错误"));
      }
      var rawAuth := found.value;
      if !Matches(req.password, rawAuth.hashedPassword) {
        return Failure(ApiException(Unauthorized, "用户名或密码错误"));
      }
      var tokens := LegacyTokenPair(req.username, nowMs, expirationSec, tokenKey);
      var auth := RecordOf(rawAuth, tokens);
      accessTokenCache.Put(req.username, auth);
      r := Success(TokenResponse(tokens.accessToken, tokens.refreshToken, expirationSec, req.username,
                                 auth.nickname, auth.authorities));
    }

    /** The earlier `updateToken(refreshToken)`. */
    method UpdateToken(refreshToken: string, nowMs: nat) returns (r: Result<TokenResponse, ApiError>)
      requires authMapper.UniqueUsernames()
      modifies accessTokenCache
      ensures old(RefreshChecked(refreshToken, nowMs)).Failure? ==>
        r == Failure(old(RefreshChecked(refreshToken, nowMs)).error) && accessTokenCache.entries == old(accessTokenCache.entries)
      ensures old(RefreshChecked(refreshToken, nowMs)).Success? ==>
        var (payload, row) := old(RefreshChecked(refreshToken, nowMs)).value;
        var tokens := LegacyTokenPair(payload.username, nowMs, expirationSec, tokenKey);
        accessTokenCache.entries == old(accessTokenCache.entries)[payload.username := RecordOf(row, tokens)] &&
        r == Success(TokenResponse(tokens.accessToken, tokens.refreshToken, expirationSec, payload.username,
                                   row.nickname, SplitCommaList(row.authorities)))
      ensures r.Success? && r.value.refreshToken != refreshToken ==>
        RefreshChecked(refreshToken, nowMs) == Failure(ApiException(Unauthorized, "Token 已废弃"))
    {
      var checked := RefreshPayload(refreshToken, tokenKey, nowMs);
      if checked.Failure? {
        return Failure(checked.error);
      }
      var payload := checked.value;
      var authData := accessTokenCache.Get(payload.username);
      if authData.None? {
        return Failure(ApiException(Unauthorized, "Token 已失效"));
      }
      if authData.value.refreshToken != refreshToken {
        return Failure(ApiException(Unauthorized, "Token 已废弃"));
      }
      var found := authMapper.SelectAuthByUsername(payload.username);
      if found.None? {
        return Failure(ApiException(Unauthorized, "无效的 Token"));
      }
      var rawAuth := found.value;
      var tokens := LegacyTokenPair(payload.username, nowMs, expirationSec, tokenKey);
      var auth := RecordOf(rawAuth, tokens);
      accessTokenCache.Put(payload.username, auth);
      r := Success(TokenResponse(tokens.accessToken, tokens.refreshToken, expirationSec, payload.username,
                                 auth.nickname, auth.authorities));
    }
  }
}
