/** Rows and errors of the user store (src/db/user.rs, src/db/get_user.rs,
    src/db/create_user.rs). The SQL itself is foreign: a query's result is a
    parameter of the handler that runs it. */
module Db {
  import opened Base

  /** The part of `sqlx::Error` the handlers distinguish. */
  datatype DbError =
    | RowNotFound
    | Database(code: string)      // an error reported by Postgres, with its SQLSTATE
    | Other(message: string)      // connection, protocol, decoding and the rest

  /** A row of `users`. */
  datatype User = User(userId: int64, username: string, password: string)

  /** The JSON body of create-account and sign-in requests. */
  datatype UserArgs = UserArgs(username: string, password: string)
}
