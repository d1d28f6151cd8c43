/** The refresh route (src/routes/accounts/refresh_token.rs): the
    `RefreshUser` guard, which admits expired access tokens too, and the
    handler that compares the `refresh_token` cookie with the stored hash and
    issues a new access token. The handler is modelled as written: it refuses
    when the cookie matches the stored hash and reissues when it does not. */
module RefreshRoute {
  import opened Base
  import opened Db
  import Text
  import Hash
  import Jwt
  import Http
  import CreateRefresh
  import RefreshStore

  const NoRefreshTokenMessage := "No valid refresh token"
  const InvalidRefreshMessage := "Refresh token is invalid"
  const UserMissingMessage := "User doesn't exist"

  datatype RefreshUser = RefreshUser(userId: int64, username: string)

  /** `RefreshUser::from_request`: like `AuthUser`, but any authentic token is
      accepted, expired or not. */
  function FromRequest(s: Jwt.Signer, cfg: Jwt.Config, authorization: Option<string>, now: int64)
    : (r: Http.Outcome<RefreshUser>)
    ensures authorization.None? ==> r == Http.Forward(Http.Unauthorized)
    ensures authorization.Some? ==>
      (r == Http.Forward(Http.BadRequest) <==> !(Http.BearerPrefix <= authorization.value))
    ensures r.Error? ==> r.status == Http.Unauthorized
    ensures r.Success? ==>
      && authorization.Some?
      && Http.BearerPrefix <= authorization.value
      && var c := s.decode(cfg.privateKey, authorization.value[|Http.BearerPrefix|..]);
      && c.Some?
      && r.value == RefreshUser(c.value.userId, c.value.username)
  {
    match authorization
    case None => Http.Forward(Http.Unauthorized)
    case Some(header) =>
      match Text.StripPrefix(header, Http.BearerPrefix)
      case None => Http.Forward(Http.BadRequest)
      case Some(key) =>
        match Jwt.DecodeJwt(s, cfg, key, now)
        case Ok(status) => Http.Success(RefreshUser(status.claims.userId, status.claims.username))
        case Err(_) => Http.Error(Http.Unauthorized)
  }

  /** For a bearer header the guard admits exactly the authentic tokens, at
      every time, with their claims; a forged token is an `Unauthorized` error. */
  lemma BearerHeader(s: Jwt.Signer, cfg: Jwt.Config, token: string, now: int64)
    ensures var c := s.decode(cfg.privateKey, token);
      FromRequest(s, cfg, Some(Http.BearerPrefix + token), now) ==
        if c.Some? then Http.Success(RefreshUser(c.value.userId, c.value.username))
        else Http.Error(Http.Unauthorized)
  {
    Text.StripPrefixOfConcat(Http.BearerPrefix, token);
  }

  /** The stored refresh hash of the user, when the lookup finds one. */
  predicate HasRecord(user: RefreshUser, table: RefreshStore.Table, fetchFault: Option<DbError>) {
    fetchFault.None? && user.userId in RefreshStore.AsMap(table)
  }

  /** The access-token reply for the guard's user, or the panic of `create_jwt`. */
  function Reissue(s: Jwt.Signer, cfg: Jwt.Config, user: RefreshUser, now: int64): (r: Http.Response)
    requires Jwt.Sound(s)
    ensures !IsInt64(now + cfg.expireTime) ==> r == Http.Panicked(Jwt.UnwrapNoneMessage)
    ensures IsInt64(now + cfg.expireTime) ==>
      && r.Reply? && r.status == Http.Ok
      && Http.TokenOfBody(r.body).Some?
      && s.decode(cfg.privateKey, Http.TokenOfBody(r.body).value)
         == Some(Jwt.Claims(user.userId, user.username, now + cfg.expireTime))
  {
    match Jwt.CreateJwt(s, cfg, user.username, user.userId, now)
    case Panics(m) => Http.Panicked(m)
    case Returns(token) =>
      Http.Reply(Http.Ok, Http.AuthTokenBody(token))
  }

  /** `refresh`, as written. `fetchFault` is an error of the select statement;
      `jar` the request's private cookies. The route only reads the table and
      the jar, so it returns a response alone. */
  function Refresh(
    h: Hash.Hasher, s: Jwt.Signer, cfg: Jwt.Config, user: RefreshUser,
    table: RefreshStore.Table, fetchFault: Option<DbError>, jar: Http.Jar, now: int64)
    : (r: Http.Response)
    requires Jwt.Sound(s)
    ensures fetchFault == Some(RowNotFound) || (fetchFault.None? && user.userId !in RefreshStore.AsMap(table)) ==>
      r == Http.Reply(Http.NotFound, UserMissingMessage)
    ensures fetchFault.Some? && fetchFault != Some(RowNotFound) ==>
      r == Http.Reply(Http.InternalServerError, Http.InternalError)
    ensures HasRecord(user, table, fetchFault) && CreateRefresh.CookieName !in jar ==>
      r == Http.Reply(Http.Unauthorized, NoRefreshTokenMessage)
    ensures HasRecord(user, table, fetchFault) && CreateRefresh.CookieName in jar ==>
      var stored := RefreshStore.AsMap(table)[user.userId];
      var v := Hash.Verify(h, Hash.From(stored), jar[CreateRefresh.CookieName].value);
      && (v.Err? ==> r == Http.Reply(Http.InternalServerError, Http.InternalError))
      && (v == Ok(true) ==> r == Http.Reply(Http.Unauthorized, InvalidRefreshMessage))
      && (v == Ok(false) ==> r == Reissue(s, cfg, user, now))
  {
    match RefreshStore.GetRefreshEntry(table, user.userId, fetchFault)
    case Err(e) =>
      if e == RowNotFound then Http.Reply(Http.NotFound, UserMissingMessage)
      else Http.Reply(Http.InternalServerError, Http.InternalError)
    case Ok(token) =>
      match Http.GetPrivate(jar, CreateRefresh.CookieName)
      case None => Http.Reply(Http.Unauthorized, NoRefreshTokenMessage)
      case Some(cookie) =>
        match Hash.Verify(h, Hash.From(token.refreshToken), cookie.value)
        case Err(_) => Http.Reply(Http.InternalServerError, Http.InternalError)
        case Ok(isTokenValid) =>
          if isTokenValid then Http.Reply(Http.Unauthorized, InvalidRefreshMessage)
          else Reissue(s, cfg, user, now)
  }

  /** As written, a cookie is accepted exactly when the stored hash does NOT
      match it: any cookie value that fails to match, such as a string that
      was never issued, obtains a new access token, and the genuine secret is
      refused. */
  lemma RefreshAcceptsExactlyNonMatching(
    h: Hash.Hasher, s: Jwt.Signer, cfg: Jwt.Config, user: RefreshUser,
    table: RefreshStore.Table, jar: Http.Jar, now: int64)
    requires Jwt.Sound(s)
    requires IsInt64(now + cfg.expireTime)
    requires user.userId in RefreshStore.AsMap(table)
    requires h.parses(RefreshStore.AsMap(table)[user.userId])
    requires CreateRefresh.CookieName in jar
    ensures var r := Refresh(h, s, cfg, user, table, None, jar, now);
      r.Reply? && r.status == Http.Ok <==>
        !h.matches(RefreshStore.AsMap(table)[user.userId], jar[CreateRefresh.CookieName].value)
  {
  }

  /** The route as written refuses the secret a stored hash was made from,
      whatever else the table and the jar hold. */
  lemma RefreshRefusesIssuedSecret(
    h: Hash.Hasher, s: Jwt.Signer, cfg: Jwt.Config, user: RefreshUser,
    table: RefreshStore.Table, jar: Http.Jar, salt: string, secret: string, now: int64)
    requires Hash.Sound(h) && Jwt.Sound(s)
    requires h.hash(salt, secret).Ok?
    requires user.userId in RefreshStore.AsMap(table)
    requires RefreshStore.AsMap(table)[user.userId] == h.hash(salt, secret).value
    requires CreateRefresh.CookieName in jar && jar[CreateRefresh.CookieName].value == secret
    ensures Refresh(h, s, cfg, user, table, None, jar, now) == Http.Reply(Http.Unauthorized, InvalidRefreshMessage)
  {
  }

  /** `refresh` with the comparison the way round its messages describe:
      reissue when the cookie matches the stored hash. */
  function RefreshIntended(
    h: Hash.Hasher, s: Jwt.Signer, cfg: Jwt.Config, user: RefreshUser,
    table: RefreshStore.Table, fetchFault: Option<DbError>, jar: Http.Jar, now: int64)
    : (r: Http.Response)
    requires Jwt.Sound(s)
    ensures fetchFault == Some(RowNotFound) || (fetchFault.None? && user.userId !in RefreshStore.AsMap(table)) ==>
      r == Http.Reply(Http.NotFound, UserMissingMessage)
    ensures fetchFault.Some? && fetchFault != Some(RowNotFound) ==>
      r == Http.Reply(Http.InternalServerError, Http.InternalError)
    ensures HasRecord(user, table, fetchFault) && CreateRefresh.CookieName !in jar ==>
      r == Http.Reply(Http.Unauthorized, NoRefreshTokenMessage)
    ensures HasRecord(user, table, fetchFault) && CreateRefresh.CookieName in jar ==>
      var stored := RefreshStore.AsMap(table)[user.userId];
      var v := Hash.Verify(h, Hash.From(stored), jar[CreateRefresh.CookieName].value);
      && (v.Err? ==> r == Http.Reply(Http.InternalServerError, Http.InternalError))
      && (v == Ok(false) ==> r == Http.Reply(Http.Unauthorized, InvalidRefreshMessage))
      && (v == Ok(true) ==> r == Reissue(s, cfg, user, now))
  {
    match RefreshStore.GetRefreshEntry(table, user.userId, fetchFault)
    case Err(e) =>
      if e == RowNotFound then Http.Reply(Http.NotFound, UserMissingMessage)
      else Http.Reply(Http.InternalServerError, Http.InternalError)
    case Ok(token) =>
      match Http.GetPrivate(jar, CreateRefresh.CookieName)
      case None => Http.Reply(Http.Unauthorized, NoRefreshTokenMessage)
      case Some(cookie) =>
        match Hash.Verify(h, Hash.From(token.refreshToken), cookie.value)
        case Err(_) => Http.Reply(Http.InternalServerError, Http.InternalError)
        case Ok(isTokenValid) =>
          if isTokenValid then Reissue(s, cfg, user, now)
          else Http.Reply(Http.Unauthorized, InvalidRefreshMessage)
  }

  /** The corrected route accepts a cookie exactly when the stored hash
      matches it. */
  lemma IntendedAcceptsExactlyMatching(
    h: Hash.Hasher, s: Jwt.Signer, cfg: Jwt.Config, user: RefreshUser,
    table: RefreshStore.Table, jar: Http.Jar, now: int64)
    requires Jwt.Sound(s)
    requires IsInt64(now + cfg.expireTime)
    requires user.userId in RefreshStore.AsMap(table)
    requires h.parses(RefreshStore.AsMap(table)[user.userId])
    requires CreateRefresh.CookieName in jar
    ensures var r := RefreshIntended(h, s, cfg, user, table, None, jar, now);
      r.Reply? && r.status == Http.Ok <==>
        h.matches(RefreshStore.AsMap(table)[user.userId], jar[CreateRefresh.CookieName].value)
  {
  }
}
