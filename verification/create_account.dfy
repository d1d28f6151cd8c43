/** The create-account route and the protected test route
    (src/routes/accounts/create_account.rs). */
module CreateAccount {
  import opened Base
  import opened Db
  import Text
  import Hash
  import Http
  import UserGuard

  const DatabaseConflictCode := "23505"
  const CreatedMessage := "Account created successfully"
  const ConflictMessage := "User already exists"

  /** The response, and the row handed to `write_user` if it was called. */
  datatype CreateResult = CreateResult(response: Http.Response, written: Option<UserArgs>)

  /** `create`. The password is hashed twice, each time with its own salt
      (`salt1`, `salt2`): the first result only decides whether to go on, the
      second is stored. `insertFault` is the error `write_user` reports. */
  function Create(h: Hash.Hasher, args: UserArgs, salt1: string, salt2: string, insertFault: Option<DbError>)
    : (r: CreateResult)
    requires Hash.Sound(h)
    ensures h.hash(salt1, args.password).Err? || h.hash(salt2, args.password).Err? ==>
      r == CreateResult(Http.Reply(Http.InternalServerError, Http.InternalError), None)
    ensures h.hash(salt1, args.password).Ok? && h.hash(salt2, args.password).Ok? ==>
      && r.written.Some?
      && r.written.value.username == args.username
      && r.written.value.password == h.hash(salt2, args.password).value
      && Hash.IsPhcShaped(r.written.value.password)
      && Hash.Verify(h, Hash.From(r.written.value.password), args.password) == Ok(true)
    ensures r.written.Some? && insertFault.None? ==>
      r.response == Http.Reply(Http.Created, CreatedMessage)
    ensures r.written.Some? && insertFault == Some(Database(DatabaseConflictCode)) ==>
      r.response == Http.Reply(Http.Conflict, ConflictMessage)
    ensures r.written.Some? && insertFault.Some? && insertFault != Some(Database(DatabaseConflictCode)) ==>
      r.response == Http.Reply(Http.InternalServerError, Http.InternalError)
  {
    match Hash.TryFrom(h, salt1, args.password)
    case Err(_) => CreateResult(Http.Reply(Http.InternalServerError, Http.InternalError), None)
    case Ok(_) =>
      match Hash.TryFrom(h, salt2, args.password)
      case Err(_) => CreateResult(Http.Reply(Http.InternalServerError, Http.InternalError), None)
      case Ok(hashed) =>
        var row := UserArgs(args.username, Hash.Value(hashed));
        match insertFault
        case None => CreateResult(Http.Reply(Http.Created, CreatedMessage), Some(row))
        case Some(Database(code)) =>
          if code == DatabaseConflictCode then CreateResult(Http.Reply(Http.Conflict, ConflictMessage), Some(row))
          else CreateResult(Http.Reply(Http.InternalServerError, Http.InternalError), Some(row))
        case Some(_) => CreateResult(Http.Reply(Http.InternalServerError, Http.InternalError), Some(row))
  }

  const GreetingPrefix := "Hello there: "
  const UserIdLabel := ", UserID: "

  /** `test_route`: `format!("Hello there: {}, UserID: {}", ..)`. The greeting
      starts with the username and ends with the user id, which can be read
      back from it. */
  function TestRoute(user: UserGuard.AuthUser): (r: string)
    ensures GreetingPrefix + user.username + UserIdLabel <= r
    ensures r[|GreetingPrefix + user.username + UserIdLabel|..] == Text.IntToDecimal(user.userId)
    ensures var n := |GreetingPrefix + user.username + UserIdLabel|;
      Text.ParseInt(r[n..]) == Some(user.userId as int)
  {
    var head := GreetingPrefix + user.username + UserIdLabel;
    var digits := Text.IntToDecimal(user.userId);
    Text.IntDecimalRoundTrip(user.userId);
    assert (head + digits)[|head|..] == digits;
    head + digits
  }
}
