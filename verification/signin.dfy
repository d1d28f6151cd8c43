/** The sign-in route (src/routes/accounts/signin.rs): check the password of
    the one account with the given username, then issue a refresh token (cookie
    and stored hash) and an access token. */
module Signin {
  import opened Base
  import opened Db
  import Hex
  import Hash
  import Jwt
  import Http
  import CreateRefresh
  import RefreshStore

  const SupportMessage := "An error with this account has occured, please contact support"
  const NoAccountMessage := "No account found by that username"
  const WrongPasswordMessage := "Password is incorrect"

  /** What the handler leaves behind: its response, the refresh table, and the
      cookie jar of the response. */
  datatype SigninResult = SigninResult(response: Http.Response, table: RefreshStore.Table, jar: Http.Jar)

  /** Exactly one account has the username, and the password verifies against it. */
  predicate PasswordAccepted(h: Hash.Hasher, args: UserArgs, users: Result<seq<User>, DbError>) {
    && users.Ok?
    && |users.value| == 1
    && Hash.Verify(h, Hash.From(users.value[0].password), args.password) == Ok(true)
  }

  /** `signin`. The handler's I/O results are parameters: `users` is what
      `read_user` returned, `fill` the RNG bytes (or `None` on failure),
      `salt` the argon2 salt, `upsertFault` an error of the upsert statement,
      `now` the clock. */
  function Signin(
    h: Hash.Hasher, s: Jwt.Signer, cfg: Jwt.Config, args: UserArgs,
    users: Result<seq<User>, DbError>, fill: Option<seq<uint8>>, salt: string,
    upsertFault: Option<DbError>, now: int64, table: RefreshStore.Table, jar: Http.Jar)
    : (r: SigninResult)
    requires Hash.Sound(h) && Jwt.Sound(s)
    requires fill.Some? ==> |fill.value| == CreateRefresh.SecretLength
    // the outcomes that leave the table and the jar alone
    ensures users.Err? ==>
      r == SigninResult(Http.Reply(Http.InternalServerError, Http.InternalError), table, jar)
    ensures users.Ok? && |users.value| == 0 ==>
      r == SigninResult(Http.Reply(Http.NotFound, NoAccountMessage), table, jar)
    ensures users.Ok? && |users.value| >= 2 ==>
      r == SigninResult(Http.Reply(Http.InternalServerError, SupportMessage), table, jar)
    ensures users.Ok? && |users.value| == 1 ==>
      var v := Hash.Verify(h, Hash.From(users.value[0].password), args.password);
      && (v.Err? ==> r == SigninResult(Http.Reply(Http.InternalServerError, Http.InternalError), table, jar))
      && (v == Ok(false) ==> r == SigninResult(Http.Reply(Http.Unauthorized, WrongPasswordMessage), table, jar))
    ensures PasswordAccepted(h, args, users) && fill.None? ==>
      r == SigninResult(Http.Reply(Http.InternalServerError, Http.InternalError), table, jar)
    ensures PasswordAccepted(h, args, users) && fill.Some? && h.hash(salt, Hex.Encode(fill.value)).Err? ==>
      r == SigninResult(Http.Panicked(CreateRefresh.HashPanicMessage), table, jar)
    // once a refresh token exists, its cookie is set whatever happens next
    ensures PasswordAccepted(h, args, users) && fill.Some? && h.hash(salt, Hex.Encode(fill.value)).Ok? ==>
      var u := users.value[0];
      var stored := h.hash(salt, Hex.Encode(fill.value)).value;
      && r.jar == Http.AddPrivate(jar, CreateRefresh.RefreshCookie(stored))
      && (upsertFault.Some? ==>
            r.table == table && r.response == Http.Reply(Http.InternalServerError, Http.InternalError))
      && (upsertFault.None? ==>
            && RefreshStore.AsMap(r.table) == RefreshStore.AsMap(table)[u.userId := stored]
            && (!IsInt64(now + cfg.expireTime) ==> r.response == Http.Panicked(Jwt.UnwrapNoneMessage))
            && (IsInt64(now + cfg.expireTime) ==>
                  && r.response.Reply?
                  && r.response.status == Http.Ok
                  && Http.TokenOfBody(r.response.body).Some?
                  && s.decode(cfg.privateKey, Http.TokenOfBody(r.response.body).value)
                     == Some(Jwt.Claims(u.userId, u.username, now + cfg.expireTime))))
    // so a 200 means: one account, right password, refresh token stored
    ensures r.response.Reply? && r.response.status == Http.Ok ==>
      PasswordAccepted(h, args, users) && fill.Some? && upsertFault.None?
  {
    match users
    case Err(_) => SigninResult(Http.Reply(Http.InternalServerError, Http.InternalError), table, jar)
    case Ok(rows) =>
      if |rows| >= 2 then SigninResult(Http.Reply(Http.InternalServerError, SupportMessage), table, jar)
      else if |rows| == 1 then
        var u := rows[0];
        match Hash.Verify(h, Hash.From(u.password), args.password)
        case Err(_) => SigninResult(Http.Reply(Http.InternalServerError, Http.InternalError), table, jar)
        case Ok(valid) =>
          if !valid then SigninResult(Http.Reply(Http.Unauthorized, WrongPasswordMessage), table, jar)
          else
            match CreateRefresh.CreateRefresh(h, fill, salt)
            case Panics(m) => SigninResult(Http.Panicked(m), table, jar)
            case Returns(Err(_)) => SigninResult(Http.Reply(Http.InternalServerError, Http.InternalError), table, jar)
            case Returns(Ok(issued)) =>
              var jar' := Http.AddPrivate(jar, issued.cookie);
              var w := RefreshStore.CreateRefreshEntry(table, RefreshStore.RefreshToken(u.userId, issued.hash), upsertFault);
              if w.result.Err? then SigninResult(Http.Reply(Http.InternalServerError, Http.InternalError), w.table, jar')
              else
                match Jwt.CreateJwt(s, cfg, u.username, u.userId, now)
                case Panics(m) => SigninResult(Http.Panicked(m), w.table, jar')
                case Returns(token) =>
                  SigninResult(Http.Reply(Http.Ok, Http.AuthTokenBody(token)), w.table, jar')
      else SigninResult(Http.Reply(Http.NotFound, NoAccountMessage), table, jar)
  }
}
