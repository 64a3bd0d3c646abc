/** The access-token gate in front of every protected route
    (src/middlewares/protectedRoutes.ts). */
module ProtectedRoutes {
  import opened Common
  import opened Tokens
  import opened Express

  const NotAuthenticated: string := "Not authenticated"
  /** The source's reply text, first letter missing as written. */
  const InvalidOrExpired: string := "nvalid or expired token"

  /** The three ways a request leaves the gate. */
  datatype Verdict =
    | Unauthenticated            // 401, no token
    | Rejected                   // 403, the token did not verify
    | Admitted(userId: Option<string>)  // x-user-id set, next called

  function Judge(cookie: Option<Wire>, secret: string, now: int): Verdict
  {
    if Missing(cookie) then Unauthenticated
    else match Verify(cookie.value, secret, now)
      case None => Rejected
      case Some(claims) => Admitted(if "userId" in claims then Some(claims["userId"]) else None)
  }

  /** protectRoute: reads the `accessToken` cookie, verifies it with the
      shared secret, and either replies (401 or 403) without calling `next`, or
      sets `x-user-id` to the token's userId and calls `next` once without
      replying. */
  method ProtectRoute(req: Request, res: Response, next: Next, secret: string, now: int)
    modifies req, res, next
    ensures req.cookies == old(req.cookies)
    ensures res.setCookies == old(res.setCookies)
    ensures match Judge(old(req.Cookie("accessToken")), secret, now)
            case Unauthenticated =>
              && res.status == 401 && res.message == Some(NotAuthenticated)
              && next.calls == old(next.calls) && req.headers == old(req.headers)
            case Rejected =>
              && res.status == 403 && res.message == Some(InvalidOrExpired)
              && next.calls == old(next.calls) && req.headers == old(req.headers)
            case Admitted(userId) =>
              && res.status == old(res.status) && res.message == old(res.message)
              && next.calls == old(next.calls) + 1
              && req.headers == (if userId.Some? then old(req.headers)["x-user-id" := userId.value]
                                 else old(req.headers) - {"x-user-id"})
  {
    var token := req.Cookie("accessToken");
    if Missing(token) {
      res.Json(Code(UNAUTHORIZED), NotAuthenticated);
      return;
    }
    var decoded := Verify(token.value, secret, now);
    if decoded.None? {
      res.Json(403, InvalidOrExpired);
      return;
    }
    var claims := decoded.value;
    req.SetHeader("x-user-id", if "userId" in claims then Some(claims["userId"]) else None);
    next.Call();
  }

  /** The gate admits exactly the tokens that verify under the shared secret;
      it does not tell a bad signature from an expired token. */
  lemma {:induction false} AdmitsExactlyVerified(cookie: Option<Wire>, secret: string, now: int)
    ensures Judge(cookie, secret, now).Admitted? <==> !Missing(cookie) && Verify(cookie.value, secret, now).Some?
    ensures Judge(cookie, secret, now) == Unauthenticated <==> Missing(cookie)
  {
  }

  /** An expired genuine token and a token signed with another secret meet the same 403. */
  lemma ExpiredAndForgedAlike(t: Token, forged: Token, secret: string, now: int)
    requires t.secret == secret && now >= t.issuedAt + t.ttl
    requires forged.secret != secret
    ensures Judge(Some(Signed(t)), secret, now) == Judge(Some(Signed(forged)), secret, now) == Rejected
  {
  }

  /** Because both token kinds share one secret and the gate only reads
      userId, an unexpired refresh token placed in the accessToken cookie is
      admitted as that user, for up to 7 days. */
  lemma RefreshTokenPassesGate(userId: string, issued: int, secret: string, now: int)
    requires now < issued + RefreshTtl
    ensures Judge(Some(Signed(GenerateRefreshToken(userId, issued, secret))), secret, now) == Admitted(Some(userId))
  {
  }

  /** An access token is admitted as its user until it expires. */
  lemma AccessTokenPassesGate(userId: string, email: string, issued: int, secret: string, now: int)
    ensures Judge(Some(Signed(GenerateAccessToken(userId, email, issued, secret))), secret, now)
            == if now < issued + AccessTtl then Admitted(Some(userId)) else Rejected
  {
  }
}
