/**
  The three tables of the entity store, reduced to the columns the
  services read, and the outcome of a write.
 */
module Entities {

  /** The values of `connections.status`; no operation produces `Rejected`. */
  datatype Status = Pending | Accepted | Rejected

  datatype User = User(id: int, firstName: string, lastName: string, headline: string)

  /** `createdAt` stands for the creation timestamp, as an integer clock reading. */
  datatype Post = Post(id: int, userId: int, content: string, createdAt: int)

  /** A directed request from `sender` to `receiver`. */
  datatype Connection = Connection(id: int, sender: int, receiver: int, status: Status)

  /** The store: each table is a sequence of rows in table order. */
  datatype Store = Store(users: seq<User>, posts: seq<Post>, connections: seq<Connection>)

  /** The two ways a connection write fails. */
  datatype Error = AlreadyExists | NotFound

  datatype Result<T> = Ok(value: T) | Err(error: Error)

  /** A committed write: the new store and the row that was written. */
  datatype Saved<T> = Saved(store: Store, row: T)

  /**
    The identifier the store gives the next inserted row: one more than the
    largest identifier in the table, or 1 for an empty table.
   */
  function NextId(ids: seq<int>): (r: int)
    ensures forall i :: 0 <= i < |ids| ==> ids[i] < r
    ensures |ids| == 0 ==> r == 1
    ensures |ids| > 0 ==> exists i :: 0 <= i < |ids| && ids[i] == r - 1
  {
    if |ids| == 0 then 1
    else if |ids| == 1 then ids[0] + 1
    else
      var rest := NextId(ids[1..]);
      if ids[0] + 1 > rest then ids[0] + 1 else rest
  }

  /** The identifier column of a table. */
  function Ids<T>(rows: seq<T>, id: T -> int): (r: seq<int>)
    ensures |r| == |rows|
    ensures forall i :: 0 <= i < |rows| ==> r[i] == id(rows[i])
  {
    seq(|rows|, i requires 0 <= i < |rows| => id(rows[i]))
  }
}
