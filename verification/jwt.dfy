/** Access tokens (src/crypto/jwt.rs): HS256 JSON Web Tokens (RFC 7519) carrying
    the claims below. Signing and signature checking are foreign code, kept
    abstract in `Signer`; the clock and the configuration are parameters. */
module Jwt {
  import opened Base

  datatype Claims = Claims(userId: int64, username: string, exp: int64)

  datatype JwtStatus = Valid(claims: Claims) | Expired(claims: Claims)

  /** Any failure of `jsonwebtoken::decode`: a bad signature, a malformed
      token, claims that do not deserialise. */
  datatype JwtError = InvalidToken

  /** HS256 signing with a secret key (HMAC-SHA256, section 3.2 of RFC 7518).
      - `encode(key, claims)`: the compact serialisation of the signed claims;
      - `decode(key, token)`: the claims, if the token is structurally sound and
        its signature verifies under `key`, regardless of `exp`. */
  datatype Signer = Signer(
    encode: (string, Claims) -> string,
    decode: (string, string) -> Option<Claims>)

  /** What signing guarantees: a token signed under a key decodes under that
      key to exactly the claims that were signed. */
  ghost predicate Sound(s: Signer) {
    forall key: string, c: Claims :: s.decode(key, s.encode(key, c)) == Some(c)
  }

  /** `JWT_PRIVATE_KEY` and `JWT_EXPIRE_TIME` (seconds), read once. */
  datatype Config = Config(privateKey: string, expireTime: int64)

  const UnwrapNoneMessage := "called `Option::unwrap()` on a `None` value"

  /** `create_jwt` at time `now` (Unix seconds): claims expiring `expireTime`
      seconds later, signed. `checked_add(..).unwrap()` panics when the expiry
      does not fit in an i64. */
  function CreateJwt(s: Signer, cfg: Config, username: string, userId: int64, now: int64)
    : (r: Panicking<string>)
    requires Sound(s)
    ensures r.Returns? <==> IsInt64(now + cfg.expireTime)
    ensures r.Returns? ==>
      s.decode(cfg.privateKey, r.value) == Some(Claims(userId, username, now + cfg.expireTime))
  {
    var exp := now + cfg.expireTime;
    if IsInt64(exp) then Returns(s.encode(cfg.privateKey, Claims(userId, username, exp)))
    else Panics(UnwrapNoneMessage)
  }

  /** `decode_jwt` at time `now`: authenticate first (expiry checking is
      switched off in the library), then classify by `exp`. */
  function DecodeJwt(s: Signer, cfg: Config, token: string, now: int64)
    : (r: Result<JwtStatus, JwtError>)
    ensures r.Err? <==> s.decode(cfg.privateKey, token).None?
    ensures r.Ok? ==> r.value.claims == s.decode(cfg.privateKey, token).value
    ensures r.Ok? ==> (r.value.Expired? <==> r.value.claims.exp <= now)
  {
    match s.decode(cfg.privateKey, token)
    case None => Err(InvalidToken)
    case Some(c) => if c.exp <= now then Ok(Expired(c)) else Ok(Valid(c))
  }

  /** A token that fails authentication is an error at every time: expiry is
      never consulted for it. */
  lemma ForgedNeverClassified(s: Signer, cfg: Config, token: string, now: int64, later: int64)
    requires s.decode(cfg.privateKey, token).None?
    ensures DecodeJwt(s, cfg, token, now) == DecodeJwt(s, cfg, token, later) == Err(InvalidToken)
  {
  }

  /** An authentic token is never an error: it is `Valid` strictly before its
      expiry and `Expired` from the expiry second on. */
  lemma AuthenticNeverError(s: Signer, cfg: Config, token: string, now: int64)
    requires s.decode(cfg.privateKey, token).Some?
    ensures var c := s.decode(cfg.privateKey, token).value;
      DecodeJwt(s, cfg, token, now) == (if c.exp <= now then Ok(Expired(c)) else Ok(Valid(c)))
  {
  }

  /** Issue then decode: at any time before `now + expireTime` the token is
      `Valid` with the issued claims; from then on it is `Expired` with the
      same claims, never an error. */
  lemma IssueThenDecode(s: Signer, cfg: Config, username: string, userId: int64, now: int64, at: int64)
    requires Sound(s)
    requires CreateJwt(s, cfg, username, userId, now).Returns?
    ensures var token := CreateJwt(s, cfg, username, userId, now).value;
      var c := Claims(userId, username, now + cfg.expireTime);
      DecodeJwt(s, cfg, token, at) == (if at < now + cfg.expireTime then Ok(Valid(c)) else Ok(Expired(c)))
  {
  }
}
