/** Token issuance (src/utils/generateToken.ts) over a model of jsonwebtoken.
    A signed token is a value that carries its payload, its issue time, its
    lifetime and the secret it was signed with; signature cryptography is not
    modelled, only whether the verifying secret is the signing one. Times are
    in seconds, as in the token's `iat` and `exp` claims. */
module Tokens {
  import opened Common

  /** `expiresIn: "15m"` */
  const AccessTtl: int := 15 * 60
  /** `expiresIn: "7d"` */
  const RefreshTtl: int := 7 * 24 * 60 * 60

  /** The JSON payload, each claim a string. */
  type Claims = map<string, string>

  datatype Token = Token(claims: Claims, issuedAt: int, ttl: int, secret: string)

  /** What a client presents in a cookie: either text that is not a token
      signed by anyone, or a signed token. */
  datatype Wire = Text(text: string) | Signed(token: Token)

  /** `!token` for a cookie that may be absent. */
  predicate Missing(w: Option<Wire>)
  {
    w.None? || w == Some(Text(""))
  }

  /** jwt.sign(payload, secret, { expiresIn }) at clock `now`. */
  function Sign(payload: Claims, secret: string, now: int, ttl: int): Token
  {
    Token(payload, now, ttl, secret)
  }

  /** jwt.verify(token, secret) at clock `now`: the payload, or one failure
      that does not say whether the signature or the expiry was at fault. */
  function Verify(w: Wire, secret: string, now: int): Option<Claims>
  {
    match w
    case Text(_) => None
    case Signed(t) => if t.secret == secret && now < t.issuedAt + t.ttl then Some(t.claims) else None
  }

  function GenerateAccessToken(userId: string, email: string, now: int, secret: string): Token
  {
    Sign(map["userId" := userId, "email" := email], secret, now, AccessTtl)
  }

  function GenerateRefreshToken(userId: string, now: int, secret: string): Token
  {
    Sign(map["userId" := userId], secret, now, RefreshTtl)
  }

  /** An access token verifies, with exactly the claims {userId, email}, for
      the 15 minutes after it is issued, and not from then on. */
  lemma AccessTokenLifetime(userId: string, email: string, issued: int, secret: string, now: int)
    ensures var v := Verify(Signed(GenerateAccessToken(userId, email, issued, secret)), secret, now);
            && (v.Some? <==> now < issued + 15 * 60)
            && (v.Some? ==> v.value.Keys == {"userId", "email"} && v.value["userId"] == userId && v.value["email"] == email)
  {
  }

  /** A refresh token verifies, with the single claim userId, for the 7 days
      after it is issued, and not from then on. */
  lemma RefreshTokenLifetime(userId: string, issued: int, secret: string, now: int)
    ensures var v := Verify(Signed(GenerateRefreshToken(userId, issued, secret)), secret, now);
            && (v.Some? <==> now < issued + 7 * 24 * 60 * 60)
            && (v.Some? ==> v.value.Keys == {"userId"} && v.value["userId"] == userId)
  {
  }

  /** No token verifies under a secret other than the one that signed it, however fresh. */
  lemma ForeignSecretRejected(t: Token, secret: string, now: int)
    requires t.secret != secret
    ensures Verify(Signed(t), secret, now).None?
  {
  }

  /** Both kinds are signed with the same secret, so once verified the two
      payloads of one issuance differ only in the presence of `email`. */
  lemma KindsDifferOnlyInEmail(userId: string, email: string, issued: int, secret: string)
    ensures var a := GenerateAccessToken(userId, email, issued, secret);
            var r := GenerateRefreshToken(userId, issued, secret);
            && a.secret == r.secret == secret
            && a.claims - {"email"} == r.claims
            && "email" in a.claims && "email" !in r.claims
  {
    var a := GenerateAccessToken(userId, email, issued, secret);
    var r := GenerateRefreshToken(userId, issued, secret);
    assert (a.claims - {"email"}).Keys == r.claims.Keys;
  }
}
