/**
 * Login: a user name and password are exchanged for an access token and a
 * refresh token, which is stored on the user with its expiry.
 */
module TokenHandler {
  import opened Wrappers
  import opened Base64
  import opened Jwt
  import opened DbOperations
  import opened UsersDomain
  import opened UsersDbHandler

  datatype TokenRequest = TokenRequest(userName: string, password: string)

  /** Unset fields keep their C# defaults: null, 0 and `DateTime.MinValue` (time 0). */
  datatype TokenResponse = TokenResponse(
    isSuccessful: bool,
    message: string,
    accessToken: Option<SecurityToken>,
    refreshToken: Option<string>,
    accessTokenExpiration: int,
    refreshTokenExpiration: int,
    userId: int,
    userName: Option<string>,
    fullName: Option<string>,
    role: Option<string>)

  const InvalidCredentials: string := "Invalid username or password"
  const InactiveAccount: string := "User account is inactive"
  const LoginSucceeded: string := "Authentication successful"

  /** A refusal: nothing but the flag and the message is set. */
  function Failed(message: string): (r: TokenResponse)
    ensures !r.isSuccessful && r.message == message
    ensures r.accessToken.None? && r.refreshToken.None? && r.userName.None?
  {
    TokenResponse(false, message, None, None, 0, 0, 0, None, None, None)
  }

  /** When a pair issued at `now` expires. */
  function AccessTokenExpiration(settings: AppSettings, now: int): int {
    now + settings.tokenExpirationInMinutes * SecondsPerMinute
  }

  function RefreshTokenExpiration(settings: AppSettings, now: int): int {
    now + settings.refreshTokenExpirationInDays * SecondsPerDay
  }

  /** The user with the new refresh token and its expiry recorded. */
  function WithRefreshToken(user: User, refreshToken: string, expiration: int): (r: User)
    ensures r.refreshToken == Some(refreshToken) && r.refreshTokenExpiration == Some(expiration)
    ensures r.(refreshToken := user.refreshToken, refreshTokenExpiration := user.refreshTokenExpiration) == user
  {
    user.(refreshToken := Some(refreshToken), refreshTokenExpiration := Some(expiration))
  }

  /**
   * The success response of both token flows: a new pair for `user` with
   * their expiries, the user's id and name, "Name Surname" and the role's name.
   */
  function Issued(message: string, user: User, roleName: string, settings: AppSettings, now: int,
                  refreshToken: string): (r: TokenResponse)
    ensures r.isSuccessful && r.message == message && r.userId == user.id
    ensures r.accessToken == Some(CreateAccessToken(user, roleName, settings, now))
    ensures r.refreshToken == Some(refreshToken)
    ensures r.accessTokenExpiration == AccessTokenExpiration(settings, now)
    ensures r.refreshTokenExpiration == RefreshTokenExpiration(settings, now)
    ensures r.userName == Some(user.userName) && r.fullName == Some(user.name + " " + user.surname)
    ensures r.role == Some(roleName)
  {
    TokenResponse(true, message, Some(CreateAccessToken(user, roleName, settings, now)),
                  Some(refreshToken), AccessTokenExpiration(settings, now),
                  RefreshTokenExpiration(settings, now), user.id, Some(user.userName),
                  Some(user.name + " " + user.surname), Some(roleName))
  }

  /**
   * Issues a new pair to the user `id`: the refresh token and its expiry are
   * saved on that user and nowhere else.
   */
  method IssueTokens(db: UsersDb, id: int, message: string, settings: AppSettings, now: int, refreshToken: string)
    returns (response: TokenResponse)
    requires db.Valid()
    requires id in db.users
    modifies db
    ensures db.Valid()
    ensures db.roles == old(db.roles) && db.skills == old(db.skills)
    ensures db.userSkills == old(db.userSkills) && db.nextId == old(db.nextId)
    ensures db.users == old(db.users)[id := WithRefreshToken(old(db.users)[id], refreshToken,
                                                             RefreshTokenExpiration(settings, now))]
    ensures response == Issued(message, old(db.users)[id], old(db.roles)[old(db.users)[id].roleId].name,
                               settings, now, refreshToken)
  {
    var user := db.users[id];
    var roleName := db.roles[user.roleId].name;
    ReplaceUserValid(db.users, db.roles, db.nextId, WithRefreshToken(user, refreshToken, RefreshTokenExpiration(settings, now)));
    db.users := Update(db.users, id, WithRefreshToken(user, refreshToken, RefreshTokenExpiration(settings, now)));
    response := Issued(message, user, roleName, settings, now, refreshToken);
  }

  /**
   * Refuses an unknown user name or a wrong password with the same message,
   * then an inactive account; only an active user presenting the right
   * password gets a new pair, and only that user's record changes.
   */
  method Handle(db: UsersDb, request: TokenRequest, settings: AppSettings, now: int, randomBytes: seq<byte>)
    returns (response: TokenResponse)
    requires db.Valid()
    requires |randomBytes| == 32
    modifies db
    ensures db.Valid()
    ensures db.roles == old(db.roles) && db.skills == old(db.skills)
    ensures db.userSkills == old(db.userSkills) && db.nextId == old(db.nextId)
    ensures !response.isSuccessful ==> db.users == old(db.users) && response.accessToken.None? && response.refreshToken.None?
    ensures UserNamed(old(db.users), request.userName).None? ==> response == Failed(InvalidCredentials)
    ensures UserNamed(old(db.users), request.userName).Some? ==>
              var id := UserNamed(old(db.users), request.userName).value;
              var user := old(db.users)[id];
              && (user.password != request.password ==> response == Failed(InvalidCredentials))
              && (user.password == request.password && !user.isActive ==> response == Failed(InactiveAccount))
              && (user.password == request.password && user.isActive ==>
                    && db.users == old(db.users)[id := WithRefreshToken(user, CreateRefreshToken(randomBytes),
                                                                        RefreshTokenExpiration(settings, now))]
                    && response == Issued(LoginSucceeded, user, old(db.roles)[user.roleId].name, settings, now,
                                          CreateRefreshToken(randomBytes)))
  {
    var found := UserNamed(db.users, request.userName);
    if found.None? {
      response := Failed(InvalidCredentials);
    } else {
      var user := db.users[found.value];
      if user.password != request.password {
        response := Failed(InvalidCredentials);
      } else if !user.isActive {
        response := Failed(InactiveAccount);
      } else {
        response := IssueTokens(db, found.value, LoginSucceeded, settings, now, CreateRefreshToken(randomBytes));
      }
    }
  }
}
