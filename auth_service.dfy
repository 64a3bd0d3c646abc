/** The refactored authentication service
    (src/services/implementation/auth.service.ts). It works through the user
    repository and has no try/catch: a fault raised by bcrypt, jsonwebtoken or
    the store escapes to the caller as an exception. */
module AuthServices {
  import opened Common
  import opened Bcrypt
  import opened Tokens
  import opened Express
  import opened UserModel
  import opened UserRepositories
  import opened AuthSpec

  /** The reply text for each event. */
  function Message(e: AuthEvent): string
  {
    match e
    case UserExists => "User already exists"
    case SignedUp => "Signup successful"
    case InvalidCredentials => "Invalid credentials"
    case LoggedIn => "Login successful"
    case RefreshTokenMissing => "Refresh token not found"
    case RefreshUserNotFound => "User not found"
    case TokenRefreshed => "Token refreshed"
    case InvalidUserId => "Invalid user Id"
    case VerifyUserNotFound => "User not found"
    case Verified => ""
    case LoggedOut => "Logout successful"
    case ChangeUserNotFound => "User not found"
    case CurrentPasswordIncorrect => "Current password is incorrect"
    case PasswordUpdated => "Password updated"
    case ProfileUpdated => "Profile updated"
  }

  function Says(e: AuthEvent, user: Option<User>): AuthReturn
  {
    AuthReturn(Message(e), StatusOf(e), user)
  }

  /** A settled step as this service returns it: faults propagate. */
  function Render(o: Completion<Reply>): Completion<AuthReturn>
  {
    match o
    case Threw(f) => Threw(f)
    case Returned(Reply(e, u)) => Returned(Says(e, u))
  }

  /** Every failure this service reports without raising has a non-2xx
      status, and every success a 2xx one. */
  lemma StatusMatchesOutcome(o: Completion<Reply>)
    requires o.Returned?
    ensures var c := Code(Render(o).value.status);
            200 <= c < 300 <==> o.value.event in {SignedUp, LoggedIn, TokenRefreshed, Verified,
                                                  LoggedOut, PasswordUpdated, ProfileUpdated}
  {
  }

  class AuthService {
    const userRepository: UserRepository
    /** `config.jwt`, the one secret both token kinds are signed with. */
    const secret: string

    constructor (userRepository: UserRepository, secret: string)
      ensures this.userRepository == userRepository && this.secret == secret
    {
      this.userRepository := userRepository;
      this.secret := secret;
    }

    /** registerUser; `salt` stands for bcrypt's random salt and `now` for the clock. */
    method RegisterUser(user: NewUser, res: Response, salt: Salt, now: int) returns (r: Completion<AuthReturn>)
      requires userRepository.model.Valid()
      modifies userRepository.model, res
      ensures userRepository.model.Valid()
      ensures var s := Register(old(userRepository.model.State()), user, salt, now, secret);
              && r == Render(s.outcome)
              && userRepository.model.State() == s.table
              && res.setCookies == old(res.setCookies) + s.cookies
      ensures res.status == old(res.status) && res.message == old(res.message)
    {
      var existingUser := FindByEmailOrPhone(userRepository.model.rows, user.email, user.phone);
      if existingUser.Some? {
        return Returned(Says(UserExists, None));
      }
      var hashedPassword := Hash(user.password, salt);
      var created := userRepository.CreateUser(WithPassword(user, hashedPassword));
      // the unique indexes cannot refuse a document the query above did not find
      assert created.Returned?;
      var newUser := created.value;
      var refreshToken := GenerateRefreshToken(newUser.id, now, secret);
      var accessToken := GenerateAccessToken(newUser.id, newUser.email, now, secret);
      res.Cookie("accessToken", Signed(accessToken), AccessCookieOptions);
      res.Cookie("refreshToken", Signed(refreshToken), RefreshCookieOptions);
      r := Returned(Says(SignedUp, Some(newUser)));
    }

    /** loginUser */
    method LoginUser(emailOrPhone: string, password: string, res: Response, now: int) returns (r: Completion<AuthReturn>)
      requires userRepository.model.Valid()
      modifies res
      ensures var s := Login(userRepository.model.State(), emailOrPhone, password, now, secret);
              && r == Render(s.outcome)
              && res.setCookies == old(res.setCookies) + s.cookies
      ensures res.status == old(res.status) && res.message == old(res.message)
    {
      var user := FindByEmailOrPhone(userRepository.model.rows, emailOrPhone, emailOrPhone);
      if user.None? {
        return Returned(Says(InvalidCredentials, None));
      }
      var isMatch := Compare(password, user.value.password);
      if !isMatch {
        return Returned(Says(InvalidCredentials, None));
      }
      var refreshToken := GenerateRefreshToken(user.value.id, now, secret);
      var accessToken := GenerateAccessToken(user.value.id, user.value.email, now, secret);
      res.Cookie("accessToken", Signed(accessToken), AccessCookieOptions);
      res.Cookie("refreshToken", Signed(refreshToken), RefreshCookieOptions);
      r := Returned(Says(LoggedIn, user));
    }

    /** refreshToken, given the request's `refreshToken` cookie. */
    method RefreshToken(token: Option<Wire>, res: Response, now: int) returns (r: Completion<AuthReturn>)
      requires userRepository.model.Valid()
      modifies res
      ensures var s := Refresh(userRepository.model.State(), token, now, secret);
              && r == Render(s.outcome)
              && res.setCookies == old(res.setCookies) + s.cookies
      ensures res.status == old(res.status) && res.message == old(res.message)
    {
      if Missing(token) {
        return Returned(Says(RefreshTokenMissing, None));
      }
      var decoded := Verify(token.value, secret, now);
      if decoded.None? {
        return Threw(InvalidToken);
      }
      var user: Option<User> := None;
      if "userId" in decoded.value {
        user := userRepository.FindById(decoded.value["userId"]);
      }
      if user.None? {
        return Returned(Says(RefreshUserNotFound, None));
      }
      var accessToken := GenerateAccessToken(user.value.id, user.value.email, now, secret);
      res.Cookie("accessToken", Signed(accessToken), AccessCookieOptions);
      r := Returned(Says(TokenRefreshed, user));
    }

    /** verifyUser, given the `x-user-id` header the access-token gate set. */
    method VerifyUser(userId: Option<string>) returns (r: Completion<AuthReturn>)
      ensures r == Render(AuthSpec.VerifyUser(userRepository.model.State(), userId).outcome)
    {
      if !Truthy(userId) {
        return Returned(Says(InvalidUserId, None));
      }
      var user := userRepository.FindById(userId.value);
      if user.None? {
        return Returned(Says(VerifyUserNotFound, None));
      }
      r := Returned(Says(Verified, user));
    }

    /** logOut */
    method LogOut(res: Response) returns (r: Completion<AuthReturn>)
      modifies res
      ensures var s := AuthSpec.LogOut(userRepository.model.State());
              && r == Render(s.outcome)
              && res.setCookies == old(res.setCookies) + s.cookies
      ensures res.status == old(res.status) && res.message == old(res.message)
    {
      res.ClearCookie("accessToken");
      res.ClearCookie("refreshToken");
      r := Returned(Says(LoggedOut, None));
    }

    /** changeUserdetails; `salt` stands for the salt of the new hash. */
    method ChangeUserdetails(userData: ProfileChange, salt: Salt) returns (r: Completion<AuthReturn>)
      requires userRepository.model.Valid()
      modifies userRepository.model
      ensures userRepository.model.Valid()
      ensures var s := ChangeDetails(old(userRepository.model.State()), userData, salt);
              && r == Render(s.outcome)
              && userRepository.model.State() == s.table
    {
      var found := userRepository.FindOne(ByEmail(userData.email));
      if found.None? {
        return Returned(Says(ChangeUserNotFound, None));
      }
      var user := Edited(found.value, userData);
      var isPasswordUpdate := IsPasswordUpdate(userData);
      if isPasswordUpdate {
        if userData.password.None? {
          return Threw(IllegalArguments);
        }
        var isMatch := Compare(userData.password.value, user.password);
        if !isMatch {
          return Returned(Says(CurrentPasswordIncorrect, None));
        }
        if userData.newPassword.None? {
          return Threw(IllegalArguments);
        }
        user := user.(password := Hash(userData.newPassword.value, salt));
      }
      var written := userRepository.UpdateUser(ByEmail(userData.email), user);
      if written.Threw? {
        return Threw(written.fault);
      }
      r := Returned(Says(if isPasswordUpdate then PasswordUpdated else ProfileUpdated, Some(user)));
    }
  }
}
