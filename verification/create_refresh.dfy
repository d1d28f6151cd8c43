/** Refresh-token generation (src/crypto/create_refresh.rs): 32 random bytes,
    hex-encoded, hashed with argon2, and put in a cookie. The cookie carries
    the hash; the hex plaintext is dropped. */
module CreateRefresh {
  import opened Base
  import Hex
  import Hash
  import Http

  const SecretLength := 32
  const CookieName := "refresh_token"
  const CookiePath := "/refresh"
  const SecondsPerDay := 24 * 60 * 60
  const MaxAgeSeconds := 30 * SecondsPerDay

  /** The message given to `expect`. The panic Rust raises reads `asd: `
      followed by the Debug form of the argon2 error; only this fixed part
      is modelled. */
  const HashPanicMessage := "asd"

  /** `rustls::crypto::GetRandomFailed`. */
  datatype RngError = GetRandomFailed

  /** The `(Cookie, String)` pair returned on success. */
  datatype Issued = Issued(cookie: Http.Cookie, hash: string)

  /** The cookie built by `Cookie::build`: HTTP-only, not secure-only, lax
      same-site, scoped to `/refresh`, 30 days. */
  predicate IsRefreshCookie(c: Http.Cookie, value: string) {
    && c.name == CookieName
    && c.value == value
    && c.httpOnly
    && !c.secure
    && c.sameSite == Http.Lax
    && c.path == CookiePath
    && c.maxAgeSeconds == 2592000
  }

  function RefreshCookie(value: string): (c: Http.Cookie)
    ensures IsRefreshCookie(c, value)
  {
    Http.Cookie(CookieName, value, true, false, Http.Lax, CookiePath, MaxAgeSeconds)
  }

  /** `create_refresh`. `fill` is what the RNG wrote into the 32-byte buffer,
      or `None` when `fill` failed; `salt` is the salt `try_from` draws. */
  function CreateRefresh(h: Hash.Hasher, fill: Option<seq<uint8>>, salt: string)
    : (r: Panicking<Result<Issued, RngError>>)
    requires Hash.Sound(h)
    requires fill.Some? ==> |fill.value| == SecretLength
    ensures fill.None? ==> r == Returns(Err(GetRandomFailed))
    ensures fill.Some? ==> (r.Panics? <==> h.hash(salt, Hex.Encode(fill.value)).Err?)
    ensures fill.Some? && h.hash(salt, Hex.Encode(fill.value)).Ok? ==> r.Returns? && r.value.Ok?
    ensures r.Returns? && r.value.Ok? ==>
      fill.Some? &&
      var issued := r.value.value;
      var secret := Hex.Encode(fill.value);
      && IsRefreshCookie(issued.cookie, issued.hash)
      && issued.hash == h.hash(salt, secret).value
      && Hash.Verify(h, Hash.From(issued.hash), secret) == Ok(true)
      && issued.hash != secret
  {
    match fill
    case None => Returns(Err(GetRandomFailed))
    case Some(bytes) =>
      var secret := Hex.Encode(bytes);
      match Hash.TryFrom(h, salt, secret)
      case Err(_) => Panics(HashPanicMessage)
      case Ok(ph) =>
        assert Hash.Value(ph) != secret by {
          assert Hex.IsHexChar(secret[0]);
        }
        Returns(Ok(Issued(RefreshCookie(Hash.Value(ph)), Hash.Value(ph))))
  }

  /** The plaintext secret is 64 lower-case hex digits, and it determines the
      random bytes it was made from. */
  lemma SecretShape(bytes: seq<uint8>)
    requires |bytes| == SecretLength
    ensures |Hex.Encode(bytes)| == 64
    ensures Hex.AllHex(Hex.Encode(bytes))
    ensures Hex.Decode(Hex.Encode(bytes)) == Some(bytes)
  {
    Hex.DecodeEncode(bytes);
  }

  /** The corrected generator: the cookie carries the hex plaintext, which
      `refresh` can check against the stored hash, and only the hash is
      returned for storage. */
  function CreateRefreshIntended(h: Hash.Hasher, fill: Option<seq<uint8>>, salt: string)
    : (r: Panicking<Result<Issued, RngError>>)
    requires Hash.Sound(h)
    requires fill.Some? ==> |fill.value| == SecretLength
    ensures fill.None? ==> r == Returns(Err(GetRandomFailed))
    ensures fill.Some? ==> (r.Panics? <==> h.hash(salt, Hex.Encode(fill.value)).Err?)
    ensures fill.Some? && h.hash(salt, Hex.Encode(fill.value)).Ok? ==> r.Returns? && r.value.Ok?
    ensures r.Returns? && r.value.Ok? ==>
      fill.Some? &&
      var issued := r.value.value;
      && IsRefreshCookie(issued.cookie, Hex.Encode(fill.value))
      && Hash.Verify(h, Hash.From(issued.hash), issued.cookie.value) == Ok(true)
  {
    match fill
    case None => Returns(Err(GetRandomFailed))
    case Some(bytes) =>
      var secret := Hex.Encode(bytes);
      match Hash.TryFrom(h, salt, secret)
      case Err(_) => Panics(HashPanicMessage)
      case Ok(ph) => Returns(Ok(Issued(RefreshCookie(secret), Hash.Value(ph))))
  }
}
