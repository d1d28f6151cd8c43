/** Properties of whole sessions, across the routes: what a successful sign-in
    lets the client do afterwards, and how refresh tokens rotate. */
module Session {
  import opened Base
  import opened Db
  import Hex
  import Hash
  import Jwt
  import Http
  import CreateRefresh
  import RefreshStore
  import UserGuard
  import Signin
  import RefreshRoute

  /** The bearer header a client builds from a response body. */
  function BearerOf(body: string): Option<string> {
    match Http.TokenOfBody(body)
    case None => None
    case Some(token) => Some(Http.BearerPrefix + token)
  }

  /** The access token of a successful sign-in opens protected routes for the
      signed-in account until it expires, and opens the refresh route for that
      account at any time. */
  lemma SigninTokenAuthorizes(
    h: Hash.Hasher, s: Jwt.Signer, cfg: Jwt.Config, args: UserArgs,
    users: Result<seq<User>, DbError>, fill: Option<seq<uint8>>, salt: string,
    now: int64, table: RefreshStore.Table, jar: Http.Jar, at: int64)
    requires Hash.Sound(h) && Jwt.Sound(s)
    requires fill.Some? ==> |fill.value| == CreateRefresh.SecretLength
    requires var r := Signin.Signin(h, s, cfg, args, users, fill, salt, None, now, table, jar);
      r.response.Reply? && r.response.status == Http.Ok
    ensures var r := Signin.Signin(h, s, cfg, args, users, fill, salt, None, now, table, jar);
      var u := users.value[0];
      var header := BearerOf(r.response.body);
      && header.Some?
      && UserGuard.FromRequest(s, cfg, header, at) ==
           (if at < now + cfg.expireTime then Http.Success(UserGuard.AuthUser(u.userId, u.username))
            else Http.Error(Http.Unauthorized))
      && RefreshRoute.FromRequest(s, cfg, header, at) ==
           Http.Success(RefreshRoute.RefreshUser(u.userId, u.username))
  {
    var r := Signin.Signin(h, s, cfg, args, users, fill, salt, None, now, table, jar);
    var token := Http.TokenOfBody(r.response.body).value;
    UserGuard.BearerHeader(s, cfg, token, at);
    RefreshRoute.BearerHeader(s, cfg, token, at);
  }

  /** As written, the sign-in cookie holds the very hash the table stores, and
      refreshing with it succeeds exactly when that hash does not match itself
      as a password. */
  lemma SigninThenRefresh(
    h: Hash.Hasher, s: Jwt.Signer, cfg: Jwt.Config, args: UserArgs,
    users: Result<seq<User>, DbError>, fill: Option<seq<uint8>>, salt: string,
    now: int64, table: RefreshStore.Table, jar: Http.Jar, at: int64)
    requires Hash.Sound(h) && Jwt.Sound(s)
    requires fill.Some? ==> |fill.value| == CreateRefresh.SecretLength
    requires var r := Signin.Signin(h, s, cfg, args, users, fill, salt, None, now, table, jar);
      r.response.Reply? && r.response.status == Http.Ok
    requires IsInt64(at + cfg.expireTime)
    ensures var r := Signin.Signin(h, s, cfg, args, users, fill, salt, None, now, table, jar);
      var u := users.value[0];
      var user := RefreshRoute.RefreshUser(u.userId, u.username);
      && u.userId in RefreshStore.AsMap(r.table)
      && CreateRefresh.CookieName in r.jar
      && var stored := RefreshStore.AsMap(r.table)[u.userId];
      && r.jar[CreateRefresh.CookieName].value == stored
      && var r2 := RefreshRoute.Refresh(h, s, cfg, user, r.table, None, r.jar, at);
      (r2.Reply? && r2.status == Http.Ok <==> !h.matches(stored, stored))
  {
    var r := Signin.Signin(h, s, cfg, args, users, fill, salt, None, now, table, jar);
    var u := users.value[0];
    var stored := h.hash(salt, Hex.Encode(fill.value)).value;
    assert h.parses(stored);
    RefreshRoute.RefreshAcceptsExactlyNonMatching(
      h, s, cfg, RefreshRoute.RefreshUser(u.userId, u.username), r.table, r.jar, at);
  }

  /** As written, the corrected route would refuse the cookie a sign-in has
      just set: the cookie is the stored hash itself, and under Binding that
      hash matches only the hex secret it was made from. */
  lemma SigninCookieRefusedByCorrectedRoute(
    h: Hash.Hasher, s: Jwt.Signer, cfg: Jwt.Config, args: UserArgs,
    users: Result<seq<User>, DbError>, fill: Option<seq<uint8>>, salt: string,
    now: int64, table: RefreshStore.Table, jar: Http.Jar, at: int64)
    requires Hash.Sound(h) && Hash.Binding(h) && Jwt.Sound(s)
    requires fill.Some? ==> |fill.value| == CreateRefresh.SecretLength
    requires var r := Signin.Signin(h, s, cfg, args, users, fill, salt, None, now, table, jar);
      r.response.Reply? && r.response.status == Http.Ok
    ensures var r := Signin.Signin(h, s, cfg, args, users, fill, salt, None, now, table, jar);
      var u := users.value[0];
      var user := RefreshRoute.RefreshUser(u.userId, u.username);
      RefreshRoute.RefreshIntended(h, s, cfg, user, r.table, None, r.jar, at)
        == Http.Reply(Http.Unauthorized, RefreshRoute.InvalidRefreshMessage)
  {
    var secret := Hex.Encode(fill.value);
    var stored := h.hash(salt, secret).value;
    assert stored != secret by {
      assert Hash.IsPhcShaped(stored);
      assert Hex.IsHexChar(secret[0]);
    }
    Hash.HashRejectsOtherPassword(h, salt, secret, stored);
  }

  /** As written, rotation does not revoke: after a second sign-in of the same
      account has replaced the stored hash, the cookie the first sign-in set
      still obtains a new access token. */
  lemma OldCookieSurvivesRotation(
    h: Hash.Hasher, s: Jwt.Signer, cfg: Jwt.Config, args: UserArgs,
    users: Result<seq<User>, DbError>, table: RefreshStore.Table, jar: Http.Jar,
    fill1: Option<seq<uint8>>, salt1: string, now1: int64,
    fill2: Option<seq<uint8>>, salt2: string, now2: int64, at: int64)
    requires Hash.Sound(h) && Hash.Binding(h) && Jwt.Sound(s)
    requires fill1.Some? ==> |fill1.value| == CreateRefresh.SecretLength
    requires fill2.Some? ==> |fill2.value| == CreateRefresh.SecretLength
    requires var r1 := Signin.Signin(h, s, cfg, args, users, fill1, salt1, None, now1, table, jar);
      var r2 := Signin.Signin(h, s, cfg, args, users, fill2, salt2, None, now2, r1.table, r1.jar);
      && r1.response.Reply? && r1.response.status == Http.Ok
      && r2.response.Reply? && r2.response.status == Http.Ok
    ensures var r1 := Signin.Signin(h, s, cfg, args, users, fill1, salt1, None, now1, table, jar);
      var r2 := Signin.Signin(h, s, cfg, args, users, fill2, salt2, None, now2, r1.table, r1.jar);
      var u := users.value[0];
      var user := RefreshRoute.RefreshUser(u.userId, u.username);
      RefreshRoute.Refresh(h, s, cfg, user, r2.table, None, r1.jar, at) == RefreshRoute.Reissue(s, cfg, user, at)
  {
    var secret2 := Hex.Encode(fill2.value);
    var cookie1 := h.hash(salt1, Hex.Encode(fill1.value)).value;
    assert cookie1 != secret2 by {
      assert Hash.IsPhcShaped(cookie1);
      assert Hex.IsHexChar(secret2[0]);
    }
    Hash.HashRejectsOtherPassword(h, salt2, secret2, cookie1);
  }

  /** Sign-in's issue-and-store step with the corrected generator: the table
      maps the user to the new hash, and the cookie carries the hex secret. */
  function IssueAndStoreIntended(
    h: Hash.Hasher, userId: int64, bytes: seq<uint8>, salt: string, table: RefreshStore.Table)
    : (r: (RefreshStore.Table, Http.Jar))
    requires Hash.Sound(h)
    requires |bytes| == CreateRefresh.SecretLength
    requires h.hash(salt, Hex.Encode(bytes)).Ok?
    ensures RefreshStore.AsMap(r.0) == RefreshStore.AsMap(table)[userId := h.hash(salt, Hex.Encode(bytes)).value]
    ensures CreateRefresh.CookieName in r.1
    ensures CreateRefresh.IsRefreshCookie(r.1[CreateRefresh.CookieName], Hex.Encode(bytes))
  {
    var issued := CreateRefresh.CreateRefreshIntended(h, Some(bytes), salt).value.value;
    var w := RefreshStore.CreateRefreshEntry(table, RefreshStore.RefreshToken(userId, issued.hash), None);
    (w.table, Http.AddPrivate(map[], issued.cookie))
  }

  /** With the corrected generator and route, the secret just issued
      refreshes: its cookie matches the hash stored for it. */
  lemma IntendedRefreshAccepts(
    h: Hash.Hasher, s: Jwt.Signer, cfg: Jwt.Config, user: RefreshRoute.RefreshUser,
    table: RefreshStore.Table, bytes: seq<uint8>, salt: string, at: int64)
    requires Hash.Sound(h) && Jwt.Sound(s)
    requires |bytes| == CreateRefresh.SecretLength
    requires h.hash(salt, Hex.Encode(bytes)).Ok?
    requires IsInt64(at + cfg.expireTime)
    ensures var (t, jar) := IssueAndStoreIntended(h, user.userId, bytes, salt, table);
      RefreshRoute.RefreshIntended(h, s, cfg, user, t, None, jar, at) == RefreshRoute.Reissue(s, cfg, user, at)
  {
    Hash.HashThenVerify(h, salt, Hex.Encode(bytes));
  }

  /** With the corrected generator and route, rotation revokes: once a second
      issuance has replaced the stored hash, the first secret is refused. */
  lemma IntendedRotationRevokes(
    h: Hash.Hasher, s: Jwt.Signer, cfg: Jwt.Config, user: RefreshRoute.RefreshUser,
    table: RefreshStore.Table, bytes1: seq<uint8>, salt1: string, bytes2: seq<uint8>, salt2: string, at: int64)
    requires Hash.Sound(h) && Hash.Binding(h) && Jwt.Sound(s)
    requires |bytes1| == |bytes2| == CreateRefresh.SecretLength
    requires bytes1 != bytes2
    requires h.hash(salt1, Hex.Encode(bytes1)).Ok? && h.hash(salt2, Hex.Encode(bytes2)).Ok?
    ensures var (t1, jar1) := IssueAndStoreIntended(h, user.userId, bytes1, salt1, table);
      var (t2, _) := IssueAndStoreIntended(h, user.userId, bytes2, salt2, t1);
      RefreshRoute.RefreshIntended(h, s, cfg, user, t2, None, jar1, at)
        == Http.Reply(Http.Unauthorized, RefreshRoute.InvalidRefreshMessage)
  {
    var secret1 := Hex.Encode(bytes1);
    var secret2 := Hex.Encode(bytes2);
    if secret1 == secret2 {
      Hex.EncodeInjective(bytes1, bytes2);
    }
    Hash.HashRejectsOtherPassword(h, salt2, secret2, secret1);
  }
}
