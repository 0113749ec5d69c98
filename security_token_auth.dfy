/**
 * The earlier access-token check (`shared/security/TokenAuthImpl.java`) and the login
 * record it reads. That record's class is not part of this model; it is taken to have
 * the seven fields the earlier login code builds it from.
 */
module SharedTokenAuth {
  import opened Wrappers
  import opened Decimal
  import opened AccountStatus
  import opened TokenService
  import opened TimedCaches

  /** The login record of the earlier code: an immutable value with both tokens. */
  datatype SessionRecord = SessionRecord(
    userId: int, username: string, nickname: string, status: Option<AccountStatus>,
    authorities: seq<string>, accessToken: string, refreshToken: string)

  /** The text of the claim `name` of a token that decodes (`Object::toString` of the payload entry). */
  function ClaimOf(token: string, name: string): Option<string> {
    match Decode(token)
    case None => None
    case Some(j) =>
      match GetPayload(j.claims, name)
      case None => None
      case Some(c) => Some(ClaimText(c))
  }

  /**
   * `authenticate(accessToken)`: signature and date must validate under HS256 and the
   * key, the username and type claims must be present, the type must be access, and the
   * token must be the one in the user's login record. There is no account-status check.
   */
  function Authenticate(cache: TimedCache<SessionRecord>, accessToken: string, tokenKey: string, nowMs: nat): (r: Result<SessionRecord, string>)
    reads cache
    ensures !IsLegal(accessToken, tokenKey, nowMs) ==> r == Failure("非法 Token")
    ensures IsLegal(accessToken, tokenKey, nowMs) &&
      (ClaimOf(accessToken, JwtPayloadUsername).None? || ClaimOf(accessToken, JwtPayloadType).None?)
      ==> r == Failure("错误 Token")
    ensures IsLegal(accessToken, tokenKey, nowMs) && ClaimOf(accessToken, JwtPayloadUsername).Some? &&
      ClaimOf(accessToken, JwtPayloadType).Some? && ClaimOf(accessToken, JwtPayloadType) != Some(TokenTypeAccess)
      ==> r == Failure("API 鉴权请使用 Access Token")
    ensures IsLegal(accessToken, tokenKey, nowMs) && ClaimOf(accessToken, JwtPayloadType) == Some(TokenTypeAccess) &&
      ClaimOf(accessToken, JwtPayloadUsername).Some? && ClaimOf(accessToken, JwtPayloadUsername).value !in cache.entries
      ==> r == Failure("Token 已被失效")
    ensures IsLegal(accessToken, tokenKey, nowMs) && ClaimOf(accessToken, JwtPayloadType) == Some(TokenTypeAccess) &&
      ClaimOf(accessToken, JwtPayloadUsername).Some? && ClaimOf(accessToken, JwtPayloadUsername).value in cache.entries &&
      cache.entries[ClaimOf(accessToken, JwtPayloadUsername).value].accessToken != accessToken
      ==> r == Failure("Token 已被更新")
    ensures r.Success? <==>
      IsLegal(accessToken, tokenKey, nowMs) && ClaimOf(accessToken, JwtPayloadType) == Some(TokenTypeAccess) &&
      ClaimOf(accessToken, JwtPayloadUsername).Some? && ClaimOf(accessToken, JwtPayloadUsername).value in cache.entries &&
      cache.entries[ClaimOf(accessToken, JwtPayloadUsername).value].accessToken == accessToken
    ensures r.Success? ==> r.value == cache.entries[ClaimOf(accessToken, JwtPayloadUsername).value]
  {
    if !IsLegal(accessToken, tokenKey, nowMs) then Failure("非法 Token")
    else
      var jwt := Decode(accessToken).value;
      match GetPayload(jwt.claims, JwtPayloadUsername)
      case None => Failure("错误 Token")
      case Some(username) =>
        match GetPayload(jwt.claims, JwtPayloadType)
        case None => Failure("错误 Token")
        case Some(tokenType) =>
          if ClaimText(tokenType) != TokenTypeAccess then Failure("API 鉴权请使用 Access Token")
          else
            match cache.Get(ClaimText(username))
            case None => Failure("Token 已被失效")
            case Some(record) =>
              if record.accessToken != accessToken then Failure("Token 已被更新")
              else Success(record)
  }

  /** The record stored for a user authenticates that user's current, in-date access token, whatever its status. */
  lemma IssuedAccessTokenAuthenticates(cache: TimedCache<SessionRecord>, p: TokenPayload, tokenKey: string, nowMs: nat)
    requires nowMs / 1000 <= p.exp
    requires p.tokenType == TokenTypeAccess && p.username in cache.entries
    requires cache.entries[p.username].accessToken == CreateToken(p, tokenKey)
    ensures Authenticate(cache, CreateToken(p, tokenKey), tokenKey, nowMs) == Success(cache.entries[p.username])
  {
    CreatedTokenLegal(p, tokenKey, nowMs);
    DecodeCreateToken(p, tokenKey);
    PayloadClaimsLookup(p);
  }

  /** A refresh token is refused. */
  lemma RefreshTokenRejected(cache: TimedCache<SessionRecord>, p: TokenPayload, tokenKey: string, nowMs: nat)
    requires nowMs / 1000 <= p.exp
    requires p.tokenType == TokenTypeRefresh
    ensures Authenticate(cache, CreateToken(p, tokenKey), tokenKey, nowMs) == Failure("API 鉴权请使用 Access Token")
  {
    CreatedTokenLegal(p, tokenKey, nowMs);
    DecodeCreateToken(p, tokenKey);
    PayloadClaimsLookup(p);
  }

  /** A token that is no longer the one in the login record is refused as updated. */
  lemma SupersededTokenRejected(cache: TimedCache<SessionRecord>, p: TokenPayload, tokenKey: string, nowMs: nat)
    requires nowMs / 1000 <= p.exp
    requires p.tokenType == TokenTypeAccess && p.username in cache.entries
    requires cache.entries[p.username].accessToken != CreateToken(p, tokenKey)
    ensures Authenticate(cache, CreateToken(p, tokenKey), tokenKey, nowMs) == Failure("Token 已被更新")
  {
    CreatedTokenLegal(p, tokenKey, nowMs);
    DecodeCreateToken(p, tokenKey);
    PayloadClaimsLookup(p);
  }

  /** A legal token without a username claim is refused with "错误 Token". */
  lemma MissingUsernameRejected(cache: TimedCache<SessionRecord>, accessToken: string, tokenKey: string, nowMs: nat)
    requires IsLegal(accessToken, tokenKey, nowMs)
    requires forall i :: 0 <= i < |Decode(accessToken).value.claims| ==> Decode(accessToken).value.claims[i].0 != JwtPayloadUsername
    ensures Authenticate(cache, accessToken, tokenKey, nowMs) == Failure("错误 Token")
  {
  }
}
