/** The `OFFSET skip LIMIT limit` window of an SQL query. */
module Query {

  function Min(a: int, b: int): int
  {
    if a <= b then a else b
  }

  /** Rows `skip .. skip + limit` of `rows`, cut short at the end of `rows`. */
  function Page<T>(rows: seq<T>, skip: nat, limit: nat): (r: seq<T>)
    ensures |r| == if skip >= |rows| then 0 else Min(limit, |rows| - skip)
    ensures forall i :: 0 <= i < |r| ==> r[i] == rows[skip + i]
  {
    if skip >= |rows| then []
    else if limit >= |rows| - skip then rows[skip..]
    else rows[skip..skip + limit]
  }
}
