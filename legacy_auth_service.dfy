/** The first authentication service (src/services/authService.ts). It works on
    the users collection directly, persists a profile change with the
    document's own `save()`, and wraps every operation in a try/catch that
    turns any fault into INTERNAL_SERVER_ERROR. Its decisions are the shared
    ones of AuthSpec; three success and not-found texts are spelt differently. */
module LegacyAuth {
  import opened Common
  import opened Bcrypt
  import opened Tokens
  import opened Express
  import opened UserModel
  import opened AuthSpec
  import AuthServices

  /** The reply texts: the refactored service's, except for three. */
  function Message(e: AuthEvent): (m: string)
    ensures e !in {SignedUp, LoggedIn, VerifyUserNotFound} ==> m == AuthServices.Message(e)
  {
    match e
    case SignedUp => "Signup successsful"
    case LoggedIn => "Login successsful"
    case VerifyUserNotFound => "User Not found"
    case _ => AuthServices.Message(e)
  }

  /** The catch block's texts differ in case between operations. */
  const InternalLower: string := "Internal server error"
  const InternalUpper: string := "Internal Server error"

  /** A settled step as this service returns it: a fault becomes a 500 with
      the operation's own catch text. */
  function Render(o: Completion<Reply>, internal: string): AuthReturn
  {
    match o
    case Threw(_) => AuthReturn(internal, INTERNAL_SERVER_ERROR, None)
    case Returned(Reply(e, u)) => AuthReturn(Message(e), StatusOf(e), u)
  }

  /** The two services give the same status and user for every settled step,
      and the legacy one answers 500 exactly where the refactored one raises. */
  lemma {:induction false} AgreesWithRefactored(o: Completion<Reply>, internal: string)
    ensures AuthServices.Render(o).Threw? <==> Render(o, internal).status == INTERNAL_SERVER_ERROR
    ensures AuthServices.Render(o).Returned? ==>
              && Render(o, internal).status == AuthServices.Render(o).value.status
              && Render(o, internal).user == AuthServices.Render(o).value.user
              && (Render(o, internal).message == AuthServices.Render(o).value.message <==>
                    o.value.event !in {SignedUp, LoggedIn, VerifyUserNotFound})
  {
    match o
    case Threw(_) =>
    case Returned(Reply(e, u)) =>
      assert StatusOf(e) != INTERNAL_SERVER_ERROR;
  }

  class AuthService {
    const model: UserCollection
    const secret: string

    constructor (model: UserCollection, secret: string)
      ensures this.model == model && this.secret == secret
    {
      this.model := model;
      this.secret := secret;
    }

    /** registerUser */
    method RegisterUser(user: NewUser, res: Response, salt: Salt, now: int) returns (r: AuthReturn)
      requires model.Valid()
      modifies model, res
      ensures model.Valid()
      ensures var s := Register(old(model.State()), user, salt, now, secret);
              && r == Render(s.outcome, InternalLower)
              && model.State() == s.table
              && res.setCookies == old(res.setCookies) + s.cookies
      ensures res.status == old(res.status) && res.message == old(res.message)
    {
      var existingUser := FindOne(model.rows, EmailOrPhone(user.email, user.phone));
      if existingUser.Some? {
        return Render(Returned(Reply(UserExists, None)), InternalLower);
      }
      var hashedPassword := Hash(user.password, salt);
      var created := model.Create(WithPassword(user, hashedPassword));
      // the unique indexes cannot refuse a document the query above did not find
      assert created.Returned?;
      var newUser := created.value;
      var refreshToken := GenerateRefreshToken(newUser.id, now, secret);
      var accessToken := GenerateAccessToken(newUser.id, newUser.email, now, secret);
      res.Cookie("accessToken", Signed(accessToken), AccessCookieOptions);
      res.Cookie("refreshToken", Signed(refreshToken), RefreshCookieOptions);
      r := Render(Returned(Reply(SignedUp, Some(newUser))), InternalLower);
    }

    /** loginUser */
    method LoginUser(emailOrPhone: string, password: string, res: Response, now: int) returns (r: AuthReturn)
      modifies res
      ensures var s := Login(model.State(), emailOrPhone, password, now, secret);
              && r == Render(s.outcome, InternalLower)
              && res.setCookies == old(res.setCookies) + s.cookies
      ensures res.status == old(res.status) && res.message == old(res.message)
    {
      var user := FindOne(model.rows, EmailOrPhone(emailOrPhone, emailOrPhone));
      if user.None? || !Compare(password, user.value.password) {
        return Render(Returned(Reply(InvalidCredentials, None)), InternalLower);
      }
      var refreshToken := GenerateRefreshToken(user.value.id, now, secret);
      var accessToken := GenerateAccessToken(user.value.id, user.value.email, now, secret);
      res.Cookie("accessToken", Signed(accessToken), AccessCookieOptions);
      res.Cookie("refreshToken", Signed(refreshToken), RefreshCookieOptions);
      r := Render(Returned(Reply(LoggedIn, user)), InternalLower);
    }

    /** refreshToken: a token that does not verify is caught as a 500. */
    method RefreshToken(token: Option<Wire>, res: Response, now: int) returns (r: AuthReturn)
      modifies res
      ensures var s := Refresh(model.State(), token, now, secret);
              && r == Render(s.outcome, InternalLower)
              && res.setCookies == old(res.setCookies) + s.cookies
      ensures res.status == old(res.status) && res.message == old(res.message)
    {
      if Missing(token) {
        return Render(Returned(Reply(RefreshTokenMissing, None)), InternalLower);
      }
      var decoded := Verify(token.value, secret, now);
      if decoded.None? {
        return Render(Threw(InvalidToken), InternalLower);
      }
      var user := if "userId" in decoded.value then FindOne(model.rows, ById(decoded.value["userId"])) else None;
      if user.None? {
        return Render(Returned(Reply(RefreshUserNotFound, None)), InternalLower);
      }
      var accessToken := GenerateAccessToken(user.value.id, user.value.email, now, secret);
      res.Cookie("accessToken", Signed(accessToken), AccessCookieOptions);
      r := Render(Returned(Reply(TokenRefreshed, user)), InternalLower);
    }

    /** verifyUser */
    method VerifyUser(userId: Option<string>) returns (r: AuthReturn)
      ensures r == Render(AuthSpec.VerifyUser(model.State(), userId).outcome, InternalUpper)
      ensures r.status == OK ==> r.user.Some? && r.user.value in model.rows && r.user.value.id == userId.value
    {
      if !Truthy(userId) {
        return Render(Returned(Reply(InvalidUserId, None)), InternalUpper);
      }
      var user := FindOne(model.rows, ById(userId.value));
      if user.None? {
        return Render(Returned(Reply(VerifyUserNotFound, None)), InternalUpper);
      }
      r := Render(Returned(Reply(Verified, user)), InternalUpper);
    }

    /** logOut */
    method LogOut(res: Response) returns (r: AuthReturn)
      modifies res
      ensures var s := AuthSpec.LogOut(model.State());
              && r == Render(s.outcome, InternalUpper)
              && res.setCookies == old(res.setCookies) + s.cookies
      ensures res.status == old(res.status) && res.message == old(res.message)
    {
      res.ClearCookie("accessToken");
      res.ClearCookie("refreshToken");
      r := Render(Returned(Reply(LoggedOut, None)), InternalUpper);
    }

    /** changeUserdetails: the document read by email is edited and saved;
        the table written is the one the shared step describes. */
    method ChangeUserdetails(userData: ProfileChange, salt: Salt) returns (r: AuthReturn)
      requires model.Valid()
      modifies model
      ensures model.Valid()
      ensures var s := ChangeDetails(old(model.State()), userData, salt);
              && r == Render(s.outcome, InternalUpper)
              && model.State() == s.table
    {
      var i := FirstMatch(model.rows, ByEmail(userData.email));
      if i.None? {
        return Render(Returned(Reply(ChangeUserNotFound, None)), InternalUpper);
      }
      var found := model.rows[i.value];
      var user := Edited(found, userData);
      var isPasswordUpdate := IsPasswordUpdate(userData);
      if isPasswordUpdate {
        if userData.password.None? {
          return Render(Threw(IllegalArguments), InternalUpper);
        }
        if !Compare(userData.password.value, user.password) {
          return Render(Returned(Reply(CurrentPasswordIncorrect, None)), InternalUpper);
        }
        if userData.newPassword.None? {
          return Render(Threw(IllegalArguments), InternalUpper);
        }
        user := user.(password := Hash(userData.newPassword.value, salt));
      }
      SaveAgreesWithUpdateByEmail(model.State(), i.value, user);
      var saved := model.Save(user);
      if saved.Threw? {
        return Render(Threw(saved.fault), InternalUpper);
      }
      r := Render(Returned(Reply(if isPasswordUpdate then PasswordUpdated else ProfileUpdated, Some(user))), InternalUpper);
    }
  }
}
