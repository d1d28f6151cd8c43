/** The `PasswordHash` wrapper around argon2 (src/crypto/hash.rs). Argon2 itself
    is foreign code: it is represented by a record of functions, and the only
    facts used about it are the ones `Sound` states. */
module Hash {
  import opened Base

  datatype HashError =
    | PhcStringInvalid            // the stored string is not a PHC hash string
    | HashingFailed(reason: string)

  /** Argon2 with its default parameters.
      - `hash(salt, password)`: the PHC string of a fresh hash, or an error;
      - `parses(s)`: whether `s` is a well-formed PHC hash string;
      - `matches(s, password)`: whether the digest embedded in `s` is the one
        `password` produces under the parameters and salt embedded in `s`. */
  datatype Hasher = Hasher(
    hash: (string, string) -> Result<string, HashError>,
    parses: string -> bool,
    matches: (string, string) -> bool)

  /** A PHC string starts with '$' (`$argon2id$v=19$...`). */
  predicate IsPhcShaped(s: string) {
    |s| > 0 && s[0] == '$'
  }

  /** The correctness of argon2: every hash it produces is a well-formed PHC
      string that the hashed password matches. */
  ghost predicate Sound(h: Hasher) {
    forall salt: string, password: string ::
      h.hash(salt, password).Ok? ==>
        && IsPhcShaped(h.hash(salt, password).value)
        && h.parses(h.hash(salt, password).value)
        && h.matches(h.hash(salt, password).value, password)
  }

  /** Collision resistance, idealised: a produced hash matches only the
      password it was produced from. */
  ghost predicate Binding(h: Hasher) {
    forall salt: string, password: string, other: string ::
      h.hash(salt, password).Ok? && h.matches(h.hash(salt, password).value, other) ==>
        other == password
  }

  /** The `PasswordHash(String)` newtype. */
  datatype PasswordHash = PasswordHash(raw: string)

  /** `value()`: a copy of the wrapped string. */
  function Value(ph: PasswordHash): (s: string)
    ensures From(s) == ph
  {
    ph.raw
  }

  /** `From<String>`: wraps a string that already is a hash; nothing is hashed. */
  function From(s: string): (ph: PasswordHash)
    ensures ph.raw == s
  {
    PasswordHash(s)
  }

  /** `from` and `value()` are inverse: wrapping a string and reading it back
      gives that string, and every wrapper is the wrapping of its value. */
  lemma FromValueInverse(s: string, ph: PasswordHash)
    ensures Value(From(s)) == s
    ensures From(Value(ph)) == ph
  {
  }

  /** `TryFrom<&str>`: hashes `s` with a freshly generated salt (a parameter
      here, since it comes from the OS RNG). */
  function TryFrom(h: Hasher, salt: string, s: string): (r: Result<PasswordHash, HashError>)
    requires Sound(h)
    ensures r.Ok? <==> h.hash(salt, s).Ok?
    ensures r.Err? ==> r.error == h.hash(salt, s).error
    ensures r.Ok? ==> IsPhcShaped(Value(r.value))
    ensures r.Ok? ==> Verify(h, r.value, s) == Ok(true)
  {
    match h.hash(salt, s)
    case Err(e) => Err(e)
    case Ok(phc) => Ok(PasswordHash(phc))
  }

  /** `verify`: parses the stored string, then checks `password` against it. A
      mismatch, or any failure inside the check, is `Ok(false)`. */
  function Verify(h: Hasher, ph: PasswordHash, password: string): (r: Result<bool, HashError>)
    ensures r.Err? <==> !h.parses(Value(ph))
    ensures r.Err? ==> r.error == PhcStringInvalid
    ensures r == Ok(true) <==> h.parses(Value(ph)) && h.matches(Value(ph), password)
    ensures r == Ok(false) <==> h.parses(Value(ph)) && !h.matches(Value(ph), password)
  {
    if !h.parses(ph.raw) then Err(PhcStringInvalid)
    else if h.matches(ph.raw, password) then Ok(true)
    else Ok(false)
  }

  /** The hash-then-verify round trip: a password verifies against a hash made
      from it, whichever salt was drawn. */
  lemma HashThenVerify(h: Hasher, salt: string, password: string)
    requires Sound(h)
    requires h.hash(salt, password).Ok?
    ensures Verify(h, From(h.hash(salt, password).value), password) == Ok(true)
  {
  }

  /** Under Binding, a hash made from one password rejects every other one. */
  lemma HashRejectsOtherPassword(h: Hasher, salt: string, password: string, other: string)
    requires Sound(h) && Binding(h)
    requires h.hash(salt, password).Ok?
    requires other != password
    ensures Verify(h, From(h.hash(salt, password).value), other) == Ok(false)
  {
  }
}
