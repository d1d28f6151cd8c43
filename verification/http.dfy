/** The small part of Rocket the handlers touch: status codes, responses,
    cookies, the private cookie jar and request-guard outcomes. */
module Http {
  import Base

  /** Rocket's `Status`, which wraps the numeric code. */
  datatype Status = Status(code: nat)

  const Ok := Status(200)
  const Created := Status(201)
  const BadRequest := Status(400)
  const Unauthorized := Status(401)
  const NotFound := Status(404)
  const Conflict := Status(409)
  const InternalServerError := Status(500)

  /** What a handler produces: a status with a body, or a panic that unwinds
      out of the handler. */
  datatype Response = Reply(status: Status, body: string) | Panicked(message: string)

  /** The message every handler uses for an unexpected failure (spelling kept). */
  const InternalError := "An internal server error has occured"

  /** The scheme prefix both guards strip from the `Authorization` header. */
  const BearerPrefix := "Bearer "

  const AuthTokenPrefix := "AuthToken: \""
  const AuthTokenSuffix := "\""

  /** The body `format!("AuthToken: \"{}\"", token)`; the client reads the
      token back out of it. */
  function AuthTokenBody(token: string): (body: string)
    ensures TokenOfBody(body) == Base.Some(token)
  {
    var body := AuthTokenPrefix + token + AuthTokenSuffix;
    assert AuthTokenPrefix <= body;
    assert body[|body| - |AuthTokenSuffix|..] == AuthTokenSuffix;
    assert body[|AuthTokenPrefix|..|body| - |AuthTokenSuffix|] == token;
    body
  }

  /** Reads the token back out of an `AuthToken: "..."` body. */
  function TokenOfBody(body: string): Base.Option<string> {
    if |body| >= |AuthTokenPrefix| + |AuthTokenSuffix|
       && AuthTokenPrefix <= body
       && body[|body| - |AuthTokenSuffix|..] == AuthTokenSuffix
    then Base.Some(body[|AuthTokenPrefix|..|body| - |AuthTokenSuffix|])
    else Base.None
  }

  datatype SameSite = Strict | Lax | None

  datatype Cookie = Cookie(
    name: string,
    value: string,
    httpOnly: bool,
    secure: bool,
    sameSite: SameSite,
    path: string,
    maxAgeSeconds: int)

  /** The cookies of one request/response pair, by name. Rocket encrypts
      private cookies; a cookie that fails to decrypt reads as absent, so the
      jar holds exactly what `get_private` can return. */
  type Jar = map<string, Cookie>

  /** `jar.add_private(cookie)`: sets the cookie, replacing one of the same name. */
  function AddPrivate(jar: Jar, cookie: Cookie): (j: Jar)
    ensures cookie.name in j && j[cookie.name] == cookie
    ensures forall n :: n != cookie.name ==> (n in j <==> n in jar)
    ensures forall n :: n != cookie.name && n in jar ==> j[n] == jar[n]
  {
    jar[cookie.name := cookie]
  }

  /** `jar.get_private(name)`: the cookie of that name, if the jar holds one. */
  function GetPrivate(jar: Jar, name: string): (r: Base.Option<Cookie>)
    ensures r.Some? <==> name in jar
    ensures r.Some? ==> r.value == jar[name]
  {
    if name in jar then Base.Some(jar[name]) else Base.None
  }

  /** A cookie just added is what `get_private` returns under its name, and
      adding it does not change what the other names return. */
  lemma GetAfterAdd(jar: Jar, cookie: Cookie, name: string)
    ensures GetPrivate(AddPrivate(jar, cookie), cookie.name) == Base.Some(cookie)
    ensures name != cookie.name ==> GetPrivate(AddPrivate(jar, cookie), name) == GetPrivate(jar, name)
  {
  }

  /** The outcome of a request guard. `Error` carries the rejecting status
      (the guards' error payload is `()`); `Forward` hands the request on to
      the next matching route with the given status. */
  datatype Outcome<+T> = Success(value: T) | Error(status: Status) | Forward(status: Status)
}
