/** The `refresh_tokens` table (src/db/create_refresh_entry.rs,
    src/db/get_refresh_entry.rs). It is modelled as its rows; `AsMap` is the
    view a reader of the table has, user id to stored refresh hash. */
module RefreshStore {
  import opened Base
  import opened Db

  /** A row of `refresh_tokens`. */
  datatype RefreshToken = RefreshToken(userId: int64, refreshToken: string)

  /** The stored hash per user id; for a user id on several rows, the first. */
  function AsMap(rows: seq<RefreshToken>): map<int64, string>
    decreases |rows|
  {
    if |rows| == 0 then map[]
    else AsMap(rows[1..])[rows[0].userId := rows[0].refreshToken]
  }

  /** No user id occurs on two rows: the unique constraint on `user_id` that
      `ON CONFLICT (user_id)` relies on. */
  predicate UniqueUserIds(rows: seq<RefreshToken>)
    decreases |rows|
  {
    |rows| == 0 || (rows[0].userId !in AsMap(rows[1..]) && UniqueUserIds(rows[1..]))
  }

  type Table = rows: seq<RefreshToken> | UniqueUserIds(rows)

  lemma {:induction false} AsMapKeys(rows: seq<RefreshToken>, id: int64)
    ensures id in AsMap(rows) <==> exists i :: 0 <= i < |rows| && rows[i].userId == id
    decreases |rows|
  {
    if |rows| > 0 {
      AsMapKeys(rows[1..], id);
      if id in AsMap(rows[1..]) {
        var i :| 0 <= i < |rows[1..]| && rows[1..][i].userId == id;
        assert rows[i + 1].userId == id;
      }
      if exists i :: 0 <= i < |rows| && rows[i].userId == id {
        var i :| 0 <= i < |rows| && rows[i].userId == id;
        if i > 0 {
          assert rows[1..][i - 1].userId == id;
        }
      }
    }
  }

  /** The table constraint says exactly that no two rows share a user id. */
  lemma {:induction false} UniqueMeansNoTwoRows(rows: seq<RefreshToken>)
    ensures UniqueUserIds(rows) <==>
      forall i, j :: 0 <= i < j < |rows| ==> rows[i].userId != rows[j].userId
    decreases |rows|
  {
    if |rows| > 0 {
      UniqueMeansNoTwoRows(rows[1..]);
      AsMapKeys(rows[1..], rows[0].userId);
      if UniqueUserIds(rows) {
        forall i, j | 0 <= i < j < |rows|
          ensures rows[i].userId != rows[j].userId
        {
          if i > 0 {
            assert rows[1..][i - 1] == rows[i] && rows[1..][j - 1] == rows[j];
          } else {
            assert rows[1..][j - 1] == rows[j];
          }
        }
      } else if rows[0].userId in AsMap(rows[1..]) {
        var j :| 0 <= j < |rows[1..]| && rows[1..][j].userId == rows[0].userId;
        assert rows[j + 1].userId == rows[0].userId;
      } else {
        assert !UniqueUserIds(rows[1..]);
        var i, j :| 0 <= i < j < |rows[1..]| && rows[1..][i].userId == rows[1..][j].userId;
        assert rows[i + 1].userId == rows[j + 1].userId;
      }
    }
  }

  /** `INSERT .. ON CONFLICT (user_id) DO UPDATE SET refresh_token = $2`: the
      row of that user id gets the new hash, or a new row is added. */
  function Upsert(rows: seq<RefreshToken>, row: RefreshToken): (r: seq<RefreshToken>)
    requires UniqueUserIds(rows)
    ensures UniqueUserIds(r)
    ensures AsMap(r) == AsMap(rows)[row.userId := row.refreshToken]
    decreases |rows|
  {
    if |rows| == 0 then [row]
    else if rows[0].userId == row.userId then
      assert ([row] + rows[1..])[1..] == rows[1..];
      [row] + rows[1..]
    else
      var rest := Upsert(rows[1..], row);
      assert ([rows[0]] + rest)[1..] == rest;
      [rows[0]] + rest
  }

  /** Upserting the same row twice leaves the table as upserting it once. */
  lemma {:induction false} UpsertIdempotent(rows: seq<RefreshToken>, row: RefreshToken)
    requires UniqueUserIds(rows)
    ensures Upsert(Upsert(rows, row), row) == Upsert(rows, row)
    decreases |rows|
  {
    if |rows| > 0 && rows[0].userId != row.userId {
      UpsertIdempotent(rows[1..], row);
      var once := Upsert(rows, row);
      assert once[1..] == Upsert(rows[1..], row);
    }
  }

  /** The result of a statement that writes the table. */
  datatype Write = Write(result: Result<(), DbError>, table: Table)

  /** `create_refresh_entry`: the upsert, or the error of a statement that did
      not run (`fault`, standing for the pool and the connection). */
  function CreateRefreshEntry(table: Table, args: RefreshToken, fault: Option<DbError>): (w: Write)
    ensures fault.Some? ==> w == Write(Err(fault.value), table)
    ensures fault.None? ==> w.result == Ok(())
    ensures fault.None? ==> AsMap(w.table) == AsMap(table)[args.userId := args.refreshToken]
  {
    if fault.Some? then Write(Err(fault.value), table)
    else Write(Ok(()), Upsert(table, args))
  }

  /** `WHERE user_id = $1`: the rows of one user id, in table order. */
  function Select(rows: seq<RefreshToken>, userId: int64): (r: seq<RefreshToken>)
    ensures forall i :: 0 <= i < |r| ==> r[i].userId == userId
    ensures |r| == 0 <==> userId !in AsMap(rows)
    ensures |r| > 0 ==> r[0].refreshToken == AsMap(rows)[userId]
    decreases |rows|
  {
    if |rows| == 0 then []
    else if rows[0].userId == userId then [rows[0]] + Select(rows[1..], userId)
    else Select(rows[1..], userId)
  }

  /** In a table that keeps its constraint a user id selects at most one row. */
  lemma {:induction false} SelectAtMostOne(rows: seq<RefreshToken>, userId: int64)
    requires UniqueUserIds(rows)
    ensures |Select(rows, userId)| <= 1
    decreases |rows|
  {
    if |rows| > 0 {
      SelectAtMostOne(rows[1..], userId);
    }
  }

  /** `LIMIT n`. */
  function Limit(rows: seq<RefreshToken>, n: nat): (r: seq<RefreshToken>)
    ensures r <= rows
    ensures |r| <= n
    ensures |r| < n ==> r == rows
  {
    if |rows| <= n then rows else rows[..n]
  }

  /** `get_refresh_entry`: the first selected row, or `RowNotFound`. */
  function GetRefreshEntry(table: Table, userId: int64, fault: Option<DbError>)
    : (r: Result<RefreshToken, DbError>)
    ensures fault.Some? ==> r == Err(fault.value)
    ensures fault.None? && userId !in AsMap(table) ==> r == Err(RowNotFound)
    ensures fault.None? && userId in AsMap(table) ==>
      r == Ok(RefreshToken(userId, AsMap(table)[userId]))
  {
    if fault.Some? then Err(fault.value)
    else
      var tokens := Limit(Select(table, userId), 1);
      if |tokens| == 0 then Err(RowNotFound) else Ok(tokens[0])
  }

  /** A lookup after an upsert returns the upserted hash, for that user id. */
  lemma GetAfterCreate(table: Table, args: RefreshToken)
    ensures var w := CreateRefreshEntry(table, args, None);
      GetRefreshEntry(w.table, args.userId, None) == Ok(args)
  {
  }

  /** An upsert for one user id leaves every other user id's lookup as it was. */
  lemma CreateLeavesOthers(table: Table, args: RefreshToken, fault: Option<DbError>, other: int64)
    requires other != args.userId
    ensures var w := CreateRefreshEntry(table, args, fault);
      GetRefreshEntry(w.table, other, None) == GetRefreshEntry(table, other, None)
  {
  }

  /** Last write wins: of two upserts for one user id, the second is what a
      lookup returns, and the first is gone. */
  lemma LastWriteWins(table: Table, first: RefreshToken, second: RefreshToken)
    requires first.userId == second.userId
    ensures var w1 := CreateRefreshEntry(table, first, None);
      var w2 := CreateRefreshEntry(w1.table, second, None);
      GetRefreshEntry(w2.table, first.userId, None) == Ok(second)
      && |Select(w2.table, first.userId)| == 1
  {
    var w1 := CreateRefreshEntry(table, first, None);
    var w2 := CreateRefreshEntry(w1.table, second, None);
    SelectAtMostOne(w2.table, first.userId);
  }
}
