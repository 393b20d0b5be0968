/**
 * Token refresh: an expired access token and the refresh token stored on its
 * user are exchanged for a new pair; the old refresh token is replaced.
 */
module RefreshTokenHandler {
  import opened Wrappers
  import opened Text
  import opened Base64
  import opened Jwt
  import opened UsersDomain
  import opened UsersDbHandler
  import opened TokenHandler

  datatype RefreshTokenRequest = RefreshTokenRequest(accessToken: SecurityToken, refreshToken: string)

  const InvalidAccessToken: string := "Invalid access token"
  const InvalidRefreshToken: string := "Invalid refresh token"
  const RefreshSucceeded: string := "Token refresh successful"

  /**
   * The user id an access token claims: the token must read under the
   * secret, carry a name-identifier claim, and the first such claim's value
   * must parse as a 32-bit integer.
   */
  function ClaimedUserId(accessToken: SecurityToken, secret: string): (r: Option<int>)
    ensures r.Some? ==> InInt32(r.value)
    ensures r.Some? ==> accessToken.Jwt? && accessToken.signingKey == Some(secret)
    ensures r.Some? <==> GetPrincipalFromExpiredToken(accessToken, secret).Success?
                         && FindFirst(accessToken.claims, NameIdentifierClaim).Some?
                         && ParseInt32(FindFirst(accessToken.claims, NameIdentifierClaim).value.value).Some?
  {
    match GetPrincipalFromExpiredToken(accessToken, secret)
    case Failure(_) => None
    case Success(claims) =>
      match FindFirst(claims, NameIdentifierClaim)
      case None => None
      case Some(claim) => ParseInt32(claim.value)
  }

  /** An access token issued to a user names that user, however long ago it expired. */
  lemma AccessTokenNamesUser(user: User, roleName: string, settings: AppSettings, now: int)
    requires InInt32(user.id)
    ensures ClaimedUserId(CreateAccessToken(user, roleName, settings, now), settings.secret) == Some(user.id)
  {
    ParseIntToString(user.id);
  }

  /**
   * A pair issued at `now` (the access token, and the refresh token saved on
   * its user) is accepted at any later time before the refresh token expires.
   */
  lemma IssuedPairAccepted(user: User, roleName: string, settings: AppSettings, now: int, refreshToken: string,
                           later: int)
    requires InInt32(user.id)
    requires later < RefreshTokenExpiration(settings, now)
    ensures ClaimedUserId(CreateAccessToken(user, roleName, settings, now), settings.secret) == Some(user.id)
    ensures HoldsRefreshToken(WithRefreshToken(user, refreshToken, RefreshTokenExpiration(settings, now)),
                              refreshToken, later)
  {
    AccessTokenNamesUser(user, roleName, settings, now);
  }

  /**
   * Refuses an access token that does not read or names no user, then a
   * refresh token that is not the named user's unexpired one; otherwise
   * issues a new pair, the new refresh token replacing the old one.
   */
  method Handle(db: UsersDb, request: RefreshTokenRequest, settings: AppSettings, now: int, randomBytes: seq<byte>)
    returns (response: TokenResponse)
    requires db.Valid()
    requires |randomBytes| == 32
    modifies db
    ensures db.Valid()
    ensures db.roles == old(db.roles) && db.skills == old(db.skills)
    ensures db.userSkills == old(db.userSkills) && db.nextId == old(db.nextId)
    ensures !response.isSuccessful ==> db.users == old(db.users) && response.accessToken.None? && response.refreshToken.None?
    ensures ClaimedUserId(request.accessToken, settings.secret).None? ==> response == Failed(InvalidAccessToken)
    ensures ClaimedUserId(request.accessToken, settings.secret).Some? ==>
              var id := ClaimedUserId(request.accessToken, settings.secret).value;
              && (id !in old(db.users) || !HoldsRefreshToken(old(db.users)[id], request.refreshToken, now) ==>
                    response == Failed(InvalidRefreshToken))
              && (id in old(db.users) && HoldsRefreshToken(old(db.users)[id], request.refreshToken, now)
                  && (forall other :: other in old(db.users) && other != id ==>
                                        !HoldsRefreshToken(old(db.users)[other], request.refreshToken, now))
                  ==> response.isSuccessful)
    ensures response.isSuccessful ==>
              && ClaimedUserId(request.accessToken, settings.secret).Some?
              && var id := ClaimedUserId(request.accessToken, settings.secret).value;
              && id in old(db.users)
              && HoldsRefreshToken(old(db.users)[id], request.refreshToken, now)
              && db.users == old(db.users)[id := WithRefreshToken(old(db.users)[id], CreateRefreshToken(randomBytes),
                                                                  RefreshTokenExpiration(settings, now))]
              && response == Issued(RefreshSucceeded, old(db.users)[id], old(db.roles)[old(db.users)[id].roleId].name,
                                    settings, now, CreateRefreshToken(randomBytes))
              && (request.refreshToken != CreateRefreshToken(randomBytes) ==>
                    !HoldsRefreshToken(db.users[id], request.refreshToken, now))
  {
    var userId := ClaimedUserId(request.accessToken, settings.secret);
    if userId.None? {
      response := Failed(InvalidAccessToken);
    } else {
      var user := GetUserByRefreshToken(db, request.refreshToken, now);
      if user.None? || user.value.id != userId.value {
        response := Failed(InvalidRefreshToken);
      } else {
        response := IssueTokens(db, user.value.id, RefreshSucceeded, settings, now, CreateRefreshToken(randomBytes));
      }
    }
  }
}
