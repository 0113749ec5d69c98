/**
 * JWT handling (`auth/TokenService.java`) and the token constants of `auth/AuthProps.java`.
 *
 * The JWT library is replaced by a concrete, injective text encoding of a token
 * (header algorithm, ordered claims, signature) and a symbolic HMAC that depends on
 * the key, the algorithm and the claims. `parse` reads claims without checking
 * anything; `isLegal` checks algorithm, signature and expiry and never throws.
 */
module TokenService {
  import opened Wrappers
  import opened Decimal
  import opened Netstring

  const JwtPayloadUsername: string := "username"
  const JwtPayloadType: string := "type"
  /** `JWTPayload.ISSUER` and `JWTPayload.EXPIRES_AT`, the registered claim names. */
  const Issuer: string := "iss"
  const ExpiresAt: string := "exp"
  const TokenTypeAccess: string := "access"
  const TokenTypeRefresh: string := "refresh"
  const TokenExpSec: int := 1800
  const TokenIssuer: string := "吴仙杰演示系统"
  /** The algorithm id of `JWTSignerUtil.hs256`. */
  const Hs256: string := "HS256"

  /** A claim value as the JSON payload holds it. */
  datatype Claim = Text(text: string) | Number(number: int)

  /** A token: the header's algorithm, the payload claims in order, and the signature. */
  datatype Jwt = Jwt(alg: string, claims: seq<(string, Claim)>, signature: string)

  /** `TokenPayload`: the four claims the application writes and reads. */
  datatype TokenPayload = TokenPayload(username: string, tokenType: string, iss: string, exp: int)

  /** Why `parse` throws. */
  datatype ParseError =
    | Malformed                       // the text is not a token at all
    | MissingClaim(message: string)   // IllegalArgumentException("错误的 Token")
    | BadNumber(input: string)        // NumberFormatException from Long.parseLong

  // ---------------------------------------------------------------------
  // The text encoding: length-prefixed fields, claims tagged by kind

  function EncodeClaim(c: Claim): string {
    match c
    case Text(s) => ['t'] + Field(s)
    case Number(n) => [if n < 0 then '-' else '+'] + Field(NatToString(if n < 0 then -n else n))
  }

  function ReadClaim(t: string): (r: Option<(Claim, string)>)
    ensures r.Some? ==> |r.value.1| < |t|
  {
    if t == [] then None
    else
      match ReadField(t[1..])
      case None => None
      case Some((s, rest)) =>
        if t[0] == 't' then Some((Text(s), rest))
        else if (t[0] == '+' || t[0] == '-') && s != [] && AllDigits(s) then
          var v := DigitsValue(s);
          Some((Number(if t[0] == '-' then -(v as int) else v), rest))
        else None
  }

  /** The claims, each introduced by `c`, the list closed by `.`. */
  function EncodeClaims(cs: seq<(string, Claim)>): string {
    if cs == [] then ['.']
    else ['c'] + (Field(cs[0].0) + (EncodeClaim(cs[0].1) + EncodeClaims(cs[1..])))
  }

  function ReadClaims(t: string): (r: Option<(seq<(string, Claim)>, string)>)
    ensures r.Some? ==> |r.value.1| < |t|
    decreases |t|
  {
    if t == [] then None
    else if t[0] == '.' then Some(([], t[1..]))
    else if t[0] != 'c' then None
    else
      match ReadField(t[1..])
      case None => None
      case Some((name, r1)) =>
        match ReadClaim(r1)
        case None => None
        case Some((v, r2)) =>
          match ReadClaims(r2)
          case None => None
          case Some((cs, r3)) => Some(([(name, v)] + cs, r3))
  }

  /** The token text. */
  function Encode(j: Jwt): string {
    Field(j.alg) + (EncodeClaims(j.claims) + Field(j.signature))
  }

  /** Reads a token text; `None` is the library's exception for a malformed token. */
  function Decode(t: string): Option<Jwt> {
    match ReadField(t)
    case None => None
    case Some((alg, r1)) =>
      match ReadClaims(r1)
      case None => None
      case Some((cs, r2)) =>
        match ReadField(r2)
        case None => None
        case Some((sig, r3)) => if r3 == [] then Some(Jwt(alg, cs, sig)) else None
  }

  lemma TextClaimOf(s: string, rest: string)
    ensures ReadClaim(EncodeClaim(Text(s)) + rest) == Some((Text(s), rest))
  {
    var t := EncodeClaim(Text(s)) + rest;
    assert t[0] == 't';
    assert t[1..] == Field(s) + rest;
    ReadFieldOf(s, rest);
  }

  lemma SignedClaimOf(sign: char, d: string, rest: string)
    requires sign == '-' || sign == '+'
    requires d != [] && AllDigits(d)
    ensures ReadClaim([sign] + Field(d) + rest)
         == Some((Number(if sign == '-' then -(DigitsValue(d) as int) else DigitsValue(d)), rest))
  {
    var t := [sign] + Field(d) + rest;
    assert t[0] == sign;
    assert t[1..] == Field(d) + rest;
    ReadFieldOf(d, rest);
    NumberAfterField(t, d, rest);
  }

  /** A sign and a field of digits read as a number claim. */
  lemma NumberAfterField(t: string, d: string, rest: string)
    requires t != [] && (t[0] == '-' || t[0] == '+') && d != [] && AllDigits(d)
    requires ReadField(t[1..]) == Some((d, rest))
    ensures ReadClaim(t) == Some((Number(if t[0] == '-' then -(DigitsValue(d) as int) else DigitsValue(d)), rest))
  {
  }

  lemma NumberClaimOf(n: int, rest: string)
    ensures ReadClaim(EncodeClaim(Number(n)) + rest) == Some((Number(n), rest))
  {
    var m: nat := if n < 0 then -n else n;
    var d := NatToString(m);
    NatToStringDigits(m);
    SignedClaimOf(if n < 0 then '-' else '+', d, rest);
  }

  lemma ReadClaimOf(c: Claim, rest: string)
    ensures ReadClaim(EncodeClaim(c) + rest) == Some((c, rest))
  {
    match c
    case Text(s) => TextClaimOf(s, rest);
    case Number(n) => NumberClaimOf(n, rest);
  }

  lemma Regroup(x: char, a: string, b: string, c: string, rest: string)
    ensures [x] + (a + (b + c)) + rest == [x] + (a + (b + (c + rest)))
  {
  }

  /** One claim entry in front of a text that reads as claims. */
  lemma ReadClaimsStep(name: string, v: Claim, tail: string)
    requires ReadClaims(tail).Some?
    ensures ReadClaims(['c'] + (Field(name) + (EncodeClaim(v) + tail)))
         == Some(([(name, v)] + ReadClaims(tail).value.0, ReadClaims(tail).value.1))
  {
    var t := ['c'] + (Field(name) + (EncodeClaim(v) + tail));
    assert t[0] == 'c';
    assert t[1..] == Field(name) + (EncodeClaim(v) + tail);
    ReadFieldOf(name, EncodeClaim(v) + tail);
    ReadClaimOf(v, tail);
  }

  lemma {:induction false} ReadClaimsOf(cs: seq<(string, Claim)>, rest: string)
    ensures ReadClaims(EncodeClaims(cs) + rest) == Some((cs, rest))
    decreases |cs|
  {
    var t := EncodeClaims(cs) + rest;
    if cs == [] {
      assert t[0] == '.';
      assert t[1..] == rest;
    } else {
      ReadClaimsOf(cs[1..], rest);
      Regroup('c', Field(cs[0].0), EncodeClaim(cs[0].1), EncodeClaims(cs[1..]), rest);
      ReadClaimsStep(cs[0].0, cs[0].1, EncodeClaims(cs[1..]) + rest);
      assert [(cs[0].0, cs[0].1)] + cs[1..] == cs;
    }
  }

  /** The encoding loses nothing: decoding a token's text gives the token back. */
  lemma DecodeEncode(j: Jwt)
    ensures Decode(Encode(j)) == Some(j)
  {
    var r2 := Field(j.signature);
    var r1 := EncodeClaims(j.claims) + r2;
    ReadFieldOf(j.alg, r1);
    ReadClaimsOf(j.claims, r2);
    assert r2 == r2 + [];
    ReadFieldOf(j.signature, []);
  }

  /** Distinct tokens have distinct texts. */
  lemma EncodeInjective(a: Jwt, b: Jwt)
    requires Encode(a) == Encode(b)
    ensures a == b
  {
    DecodeEncode(a);
    DecodeEncode(b);
  }

  // ---------------------------------------------------------------------
  // Signing, creating, parsing, validating

  /** The symbolic HMAC of the header algorithm and the claims under `key`. */
  function Sign(key: string, alg: string, claims: seq<(string, Claim)>): string {
    Field(key) + (Field(alg) + EncodeClaims(claims))
  }

  /** Signatures under different keys differ. */
  lemma SignKeyInjective(k1: string, k2: string, alg: string, claims: seq<(string, Claim)>)
    requires Sign(k1, alg, claims) == Sign(k2, alg, claims)
    ensures k1 == k2
  {
    var rest := Field(alg) + EncodeClaims(claims);
    ReadFieldOf(k1, rest);
    ReadFieldOf(k2, rest);
  }

  /** The claims `createToken` writes, in the order it lists them. */
  function PayloadClaims(p: TokenPayload): seq<(string, Claim)> {
    [(JwtPayloadUsername, Text(p.username)), (JwtPayloadType, Text(p.tokenType)),
     (Issuer, Text(p.iss)), (ExpiresAt, Number(p.exp))]
  }

  /** `createToken(payload)`: an HS256 token of the four claims, signed with the token key. */
  function CreateToken(p: TokenPayload, tokenKey: string): string {
    var claims := PayloadClaims(p);
    Encode(Jwt(Hs256, claims, Sign(tokenKey, Hs256, claims)))
  }

  /** `jwt.getPayload(name)`: the first claim of that name, if any. */
  function GetPayload(claims: seq<(string, Claim)>, name: string): (r: Option<Claim>)
    ensures r.Some? ==> exists i :: 0 <= i < |claims| && claims[i] == (name, r.value)
    ensures r.None? ==> forall i :: 0 <= i < |claims| ==> claims[i].0 != name
  {
    if claims == [] then None
    else if claims[0].0 == name then Some(claims[0].1)
    else
      var r := GetPayload(claims[1..], name);
      assert r.Some? ==> claims[1..][0..][0..] == claims[1..];
      r
  }

  /** `Object.toString()` of a claim value. */
  function ClaimText(c: Claim): string {
    match c
    case Text(s) => s
    case Number(n) => IntToString(n)
  }

  /**
   * `parse(token)`: decode without any check, then read username, type, iss and exp in
   * that order; a missing one throws `IllegalArgumentException("错误的 Token")`, and exp
   * goes through `Long.parseLong`.
   */
  function Parse(token: string): Result<TokenPayload, ParseError> {
    match Decode(token)
    case None => Failure(Malformed)
    case Some(j) => ReadPayload(j.claims)
  }

  /** The claim-reading half of `parse`. */
  function ReadPayload(claims: seq<(string, Claim)>): Result<TokenPayload, ParseError> {
    match GetPayload(claims, JwtPayloadUsername)
    case None => Failure(MissingClaim("错误的 Token"))
    case Some(u) =>
      match GetPayload(claims, JwtPayloadType)
      case None => Failure(MissingClaim("错误的 Token"))
      case Some(ty) =>
        match GetPayload(claims, Issuer)
        case None => Failure(MissingClaim("错误的 Token"))
        case Some(iss) =>
          match GetPayload(claims, ExpiresAt)
          case None => Failure(MissingClaim("错误的 Token"))
          case Some(e) =>
            match ParseInteger(ClaimText(e), MinInt64, MaxInt64)
            case None => Failure(BadNumber(ClaimText(e)))
            case Some(exp) => Success(TokenPayload(ClaimText(u), ClaimText(ty), ClaimText(iss), exp))
  }

  /** `getMessage()` of what `parse` throws once the token has decoded. */
  function ParseErrorMessage(e: ParseError): string
    requires !e.Malformed?
  {
    match e
    case MissingClaim(m) => m
    case BadNumber(s) => "For input string: \"" + s + "\""
  }

  /**
   * The date check of `validateDate`: an `exp` claim, read as seconds, must not be
   * before the current time truncated to seconds; no `exp` claim passes.
   */
  predicate DateValid(claims: seq<(string, Claim)>, nowMs: nat) {
    match GetPayload(claims, ExpiresAt)
    case None => true
    case Some(Number(exp)) => nowMs / 1000 <= exp
    case Some(Text(_)) => false
  }

  /**
   * `isLegal(token)`: the token decodes, its header names HS256, its signature is the
   * one the token key gives, and it has not expired. Every failure is `false`.
   */
  predicate IsLegal(token: string, tokenKey: string, nowMs: nat) {
    match Decode(token)
    case None => false
    case Some(j) => j.alg == Hs256 && j.signature == Sign(tokenKey, j.alg, j.claims) && DateValid(j.claims, nowMs)
  }

  // ---------------------------------------------------------------------
  // Properties

  /** The four claims of a created token are found under their own names. */
  lemma PayloadClaimsLookup(p: TokenPayload)
    ensures GetPayload(PayloadClaims(p), JwtPayloadUsername) == Some(Text(p.username))
    ensures GetPayload(PayloadClaims(p), JwtPayloadType) == Some(Text(p.tokenType))
    ensures GetPayload(PayloadClaims(p), Issuer) == Some(Text(p.iss))
    ensures GetPayload(PayloadClaims(p), ExpiresAt) == Some(Number(p.exp))
  {
    var cs := PayloadClaims(p);
    assert |JwtPayloadUsername| == 8 && |JwtPayloadType| == 4 && |Issuer| == 3 && |ExpiresAt| == 3;
    assert Issuer[0] != ExpiresAt[0];
    assert cs[1..] == [(JwtPayloadType, Text(p.tokenType)), (Issuer, Text(p.iss)), (ExpiresAt, Number(p.exp))];
    assert cs[1..][1..] == [(Issuer, Text(p.iss)), (ExpiresAt, Number(p.exp))];
    assert cs[1..][1..][1..] == [(ExpiresAt, Number(p.exp))];
    assert GetPayload(cs, Issuer) == GetPayload(cs[1..], Issuer) == GetPayload(cs[1..][1..], Issuer);
    assert GetPayload(cs, ExpiresAt) == GetPayload(cs[1..], ExpiresAt) == GetPayload(cs[1..][1..], ExpiresAt)
        == GetPayload(cs[1..][1..][1..], ExpiresAt);
  }

  /** Reading back the claims a payload is written as gives the payload. */
  lemma ReadPayloadClaims(p: TokenPayload)
    requires MinInt64 <= p.exp <= MaxInt64
    ensures ReadPayload(PayloadClaims(p)) == Success(p)
  {
    PayloadClaimsLookup(p);
    ParseIntToString(p.exp, MinInt64, MaxInt64);
  }

  /** The token a payload is created as, decoded. */
  lemma DecodeCreateToken(p: TokenPayload, tokenKey: string)
    ensures Decode(CreateToken(p, tokenKey))
         == Some(Jwt(Hs256, PayloadClaims(p), Sign(tokenKey, Hs256, PayloadClaims(p))))
  {
    var claims := PayloadClaims(p);
    DecodeEncode(Jwt(Hs256, claims, Sign(tokenKey, Hs256, claims)));
  }

  /** `parse(createToken(p)) == p` for every payload whose exp is a `long`. */
  lemma ParseCreateToken(p: TokenPayload, tokenKey: string)
    requires MinInt64 <= p.exp <= MaxInt64
    ensures Parse(CreateToken(p, tokenKey)) == Success(p)
  {
    DecodeCreateToken(p, tokenKey);
    ReadPayloadClaims(p);
  }

  /** A freshly created token is legal under its own key exactly until it expires. */
  lemma CreatedTokenLegal(p: TokenPayload, tokenKey: string, nowMs: nat)
    ensures IsLegal(CreateToken(p, tokenKey), tokenKey, nowMs) <==> nowMs / 1000 <= p.exp
  {
    DecodeCreateToken(p, tokenKey);
    LegalUntilExpiry(CreateToken(p, tokenKey), p, tokenKey, nowMs);
  }

  /** A text that decodes to the token of `p` under `tokenKey` is legal until `p` expires. */
  lemma LegalUntilExpiry(token: string, p: TokenPayload, tokenKey: string, nowMs: nat)
    requires Decode(token) == Some(Jwt(Hs256, PayloadClaims(p), Sign(tokenKey, Hs256, PayloadClaims(p))))
    ensures IsLegal(token, tokenKey, nowMs) <==> nowMs / 1000 <= p.exp
  {
    var claims := PayloadClaims(p);
    LegalOfDecoded(token, Jwt(Hs256, claims, Sign(tokenKey, Hs256, claims)), tokenKey, nowMs);
    PayloadClaimsLookup(p);
    DateValidOf(claims, p.exp, nowMs);
  }

  lemma LegalOfDecoded(token: string, j: Jwt, tokenKey: string, nowMs: nat)
    requires Decode(token) == Some(j)
    ensures IsLegal(token, tokenKey, nowMs) <==>
      j.alg == Hs256 && j.signature == Sign(tokenKey, j.alg, j.claims) && DateValid(j.claims, nowMs)
  {
  }

  lemma DateValidOf(claims: seq<(string, Claim)>, exp: int, nowMs: nat)
    requires GetPayload(claims, ExpiresAt) == Some(Number(exp))
    ensures DateValid(claims, nowMs) <==> nowMs / 1000 <= exp
  {
  }

  /** A token signed with another key is never legal. */
  lemma OtherKeyIllegal(p: TokenPayload, signedWith: string, checkedWith: string, nowMs: nat)
    requires signedWith != checkedWith
    ensures !IsLegal(CreateToken(p, signedWith), checkedWith, nowMs)
  {
    DecodeCreateToken(p, signedWith);
    if IsLegal(CreateToken(p, signedWith), checkedWith, nowMs) {
      SignKeyInjective(signedWith, checkedWith, Hs256, PayloadClaims(p));
    }
  }

  /** `parse` checks neither signature nor expiry: an expired or foreign token still parses. */
  lemma ParseIgnoresLegality(p: TokenPayload, signedWith: string, checkedWith: string, nowMs: nat)
    requires MinInt64 <= p.exp <= MaxInt64
    requires signedWith != checkedWith || nowMs / 1000 > p.exp
    ensures !IsLegal(CreateToken(p, signedWith), checkedWith, nowMs)
    ensures Parse(CreateToken(p, signedWith)) == Success(p)
  {
    ParseCreateToken(p, signedWith);
    if signedWith != checkedWith {
      OtherKeyIllegal(p, signedWith, checkedWith, nowMs);
    } else {
      CreatedTokenLegal(p, signedWith, nowMs);
    }
  }

  /** Tokens of different payloads differ, e.g. the access and the refresh token of one login. */
  lemma CreateTokenInjective(p: TokenPayload, q: TokenPayload, tokenKey: string)
    requires CreateToken(p, tokenKey) == CreateToken(q, tokenKey)
    ensures p == q
  {
    var cp, cq := PayloadClaims(p), PayloadClaims(q);
    EncodeInjective(Jwt(Hs256, cp, Sign(tokenKey, Hs256, cp)), Jwt(Hs256, cq, Sign(tokenKey, Hs256, cq)));
    assert cp[0].1 == cq[0].1 && cp[1].1 == cq[1].1 && cp[2].1 == cq[2].1 && cp[3].1 == cq[3].1;
  }

  /** A token lacking any of the four claims fails to parse with "错误的 Token". */
  lemma ParseMissingClaim(j: Jwt, name: string)
    requires name in {JwtPayloadUsername, JwtPayloadType, Issuer, ExpiresAt}
    requires forall i :: 0 <= i < |j.claims| ==> j.claims[i].0 != name
    ensures Parse(Encode(j)) == Failure(MissingClaim("错误的 Token"))
  {
    DecodeEncode(j);
  }
}
