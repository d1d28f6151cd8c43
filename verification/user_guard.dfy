/** The `AuthUser` request guard (src/db/user.rs): a protected route runs only
    for a request whose `Authorization` header is `Bearer <token>` with a
    token that authenticates and has not expired. */
module UserGuard {
  import opened Base
  import Text
  import Jwt
  import Http

  /** `AuthUser`. Its `user_id` is an `isize`, as wide as the claim's i64 on
      the 64-bit targets the service runs on, so the cast keeps the value. */
  datatype AuthUser = AuthUser(userId: int64, username: string)

  /** `AuthUser::from_request`; `authorization` is the first `Authorization`
      header of the request, if any. */
  function FromRequest(s: Jwt.Signer, cfg: Jwt.Config, authorization: Option<string>, now: int64)
    : (r: Http.Outcome<AuthUser>)
    ensures authorization.None? ==> r == Http.Forward(Http.Unauthorized)
    ensures authorization.Some? ==>
      (r == Http.Forward(Http.BadRequest) <==> !(Http.BearerPrefix <= authorization.value))
    ensures r.Error? ==> r.status == Http.Unauthorized
    ensures r.Success? ==>
      && authorization.Some?
      && Http.BearerPrefix <= authorization.value
      && var d := Jwt.DecodeJwt(s, cfg, authorization.value[|Http.BearerPrefix|..], now);
      && d.Ok? && d.value.Valid?
      && r.value == AuthUser(d.value.claims.userId, d.value.claims.username)
  {
    match authorization
    case None => Http.Forward(Http.Unauthorized)
    case Some(header) =>
      match Text.StripPrefix(header, Http.BearerPrefix)
      case None => Http.Forward(Http.BadRequest)
      case Some(key) =>
        var d := Jwt.DecodeJwt(s, cfg, key, now);
        if d.Ok? && d.value.Valid? then Http.Success(AuthUser(d.value.claims.userId, d.value.claims.username))
        else Http.Error(Http.Unauthorized)
  }

  /** For a bearer header the guard admits exactly the tokens that decode as
      `Valid`; an expired or unauthentic token is an `Unauthorized` error. */
  lemma BearerHeader(s: Jwt.Signer, cfg: Jwt.Config, token: string, now: int64)
    ensures var d := Jwt.DecodeJwt(s, cfg, token, now);
      FromRequest(s, cfg, Some(Http.BearerPrefix + token), now) ==
        if d.Ok? && d.value.Valid? then Http.Success(AuthUser(d.value.claims.userId, d.value.claims.username))
        else Http.Error(Http.Unauthorized)
  {
    Text.StripPrefixOfConcat(Http.BearerPrefix, token);
  }
}
