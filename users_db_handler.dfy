/**
 * The token operations of the users service's database handler: the claims
 * of a user, the access token, the refresh token, the lookup of a user by
 * refresh token and the reading of an expired access token.
 */
module UsersDbHandler {
  import opened Wrappers
  import opened Text
  import opened Base64
  import opened Jwt
  import opened UsersDomain

  /** The name, the identifier (decimal text of the id) and the role's name, in that order. */
  function GetClaims(user: User, roleName: string): (claims: seq<Claim>)
    ensures |claims| == 3
    ensures FindFirst(claims, NameClaim) == Some(Claim(NameClaim, user.userName))
    ensures FindFirst(claims, NameIdentifierClaim) == Some(Claim(NameIdentifierClaim, IntToString(user.id)))
    ensures FindFirst(claims, RoleClaim) == Some(Claim(RoleClaim, roleName))
    ensures forall c :: c in claims ==> c.claimType in {NameClaim, NameIdentifierClaim, RoleClaim}
  {
    var claims := [Claim(NameClaim, user.userName), Claim(NameIdentifierClaim, IntToString(user.id)), Claim(RoleClaim, roleName)];
    assert claims[1..][1..] == [Claim(RoleClaim, roleName)];
    assert FindFirst(claims[1..][1..], RoleClaim) == Some(Claim(RoleClaim, roleName));
    assert FindFirst(claims[1..], RoleClaim) == Some(Claim(RoleClaim, roleName));
    claims
  }

  /**
   * A token for the user's claims, issued at `now`, expiring the configured
   * number of minutes later, signed with the secret under HMAC-SHA256 (the
   * handler names `HmacSha256Signature`, which is written as "HS256").
   * Reading it back with the same secret yields exactly those claims.
   */
  function CreateAccessToken(user: User, roleName: string, settings: AppSettings, now: int): (token: SecurityToken)
    ensures token.Jwt?
    ensures token.expires == now + settings.tokenExpirationInMinutes * SecondsPerMinute
    ensures GetPrincipalFromExpiredToken(token, settings.secret) == Success(GetClaims(user, roleName))
  {
    Jwt(HmacSha256, GetClaims(user, roleName), now, now + settings.tokenExpirationInMinutes * SecondsPerMinute, Some(settings.secret))
  }

  /**
   * The base 64 text of 32 random bytes (the bytes come from the caller):
   * 44 characters, the last one the only '='; it decodes to those bytes.
   */
  function CreateRefreshToken(randomBytes: seq<byte>): (token: string)
    requires |randomBytes| == 32
    ensures |token| == 44
    ensures forall i :: 0 <= i < 43 ==> IsAlphabetChar(token[i])
    ensures token[43] == Padding
    ensures Decode(token) == Some(randomBytes)
  {
    assert PaddingCount(32) == 1 && (32 + 2) / 3 * 4 == 44;
    EncodeShape(randomBytes);
    DecodeEncode(randomBytes);
    Encode(randomBytes)
  }

  /** Why reading a token fails: the library's own refusals, or the handler's
    * `SecurityTokenException("Invalid token")` for another algorithm. */
  datatype ReadFailure = NotWellFormed | SignatureInvalid | InvalidToken

  /**
   * The claims of an access token whose lifetime is not checked: the
   * signature must verify under the secret and the header algorithm must be
   * "HS256" up to case; otherwise the read fails.
   */
  function GetPrincipalFromExpiredToken(token: SecurityToken, secret: string): (r: Result<seq<Claim>, ReadFailure>)
    ensures r.Success? <==> token.Jwt? && token.signingKey == Some(secret) && EqualsIgnoreCase(token.alg, HmacSha256)
    ensures r.Success? ==> r.value == token.claims
  {
    match token
    case Malformed => Failure(NotWellFormed)
    case Jwt(alg, claims, _, _, signingKey) =>
      if signingKey != Some(secret) then Failure(SignatureInvalid)
      else if !EqualsIgnoreCase(alg, HmacSha256) then Failure(InvalidToken)
      else Success(claims)
  }

  /** An expired access token reads exactly like an unexpired one. */
  lemma ExpiryIgnored(token: SecurityToken, secret: string, expires: int)
    requires token.Jwt?
    ensures GetPrincipalFromExpiredToken(token.(expires := expires), secret) == GetPrincipalFromExpiredToken(token, secret)
  {
  }

  /** The refresh token query's condition: the user holds this token and it expires after `now`. */
  predicate HoldsRefreshToken(user: User, refreshToken: string, now: int) {
    user.refreshToken == Some(refreshToken) && user.refreshTokenExpiration.Some? && user.refreshTokenExpiration.value > now
  }

  /** Some user holding the token unexpired, or none when nobody does. */
  method GetUserByRefreshToken(db: UsersDb, refreshToken: string, now: int) returns (user: Option<User>)
    requires db.Valid()
    ensures user.Some? ==> user.value.id in db.users && db.users[user.value.id] == user.value
    ensures user.Some? ==> HoldsRefreshToken(user.value, refreshToken, now)
    ensures user.None? <==> forall id :: id in db.users ==> !HoldsRefreshToken(db.users[id], refreshToken, now)
  {
    if id :| id in db.users && HoldsRefreshToken(db.users[id], refreshToken, now) {
      user := Some(db.users[id]);
    } else {
      user := None;
    }
  }
}
