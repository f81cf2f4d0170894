/**
 * The token table as the entity manager sees it: the rows in `findAll`
 * order, and the id the next persisted row receives.
 */
module TokenRepository {
  import opened Entity

  class TokenStore {
    var rows: seq<FilesyncToken>
    var nextId: int

    constructor ()
      ensures rows == [] && nextId == 1
    {
      rows := [];
      nextId := 1;
    }

    /**
     * The newest row by `createdAt`, or null when the table is empty
     * (ORDER BY createdAt DESC, LIMIT 1). Among rows created at the same
     * instant the earliest-listed one is chosen.
     */
    function FindCurrent(): (r: FilesyncToken?)
      reads this
      ensures r == null <==> rows == []
      ensures r != null ==> r in rows && forall t :: t in rows ==> t.createdAt <= r.createdAt
    {
      if rows == [] then null else Newest(rows)
    }
  }

  /** A row of `rows` that no other row postdates; ties go to the earliest-listed row. */
  function Newest(rows: seq<FilesyncToken>): (r: FilesyncToken)
    requires rows != []
    ensures r in rows
    ensures forall t :: t in rows ==> t.createdAt <= r.createdAt
    decreases |rows|
  {
    if |rows| == 1 then rows[0]
    else
      var rest := Newest(rows[1..]);
      if rows[0].createdAt >= rest.createdAt then rows[0] else rest
  }
}
