/** The submission store (backend/database.ts:17-70): an append-only table
    whose `id` column is an AUTOINCREMENT key. The SQLite connection, the
    file path and the schema creation are not modelled; the table is the
    sequence `rows`, and `nextId` is the key the next insert receives. */
module Store {
  import opened Types
  import opened History

  /** A row stored for `record` keeps its text columns. */
  predicate Stores(row: Row, record: Submission)
  {
    row.date == record.date && row.firstName == record.firstName && row.lastName == record.lastName
  }

  class Database {
    var rows: seq<Row>
    var nextId: nat

    /** Keys are positive, below `nextId` and increase in insertion order. */
    ghost predicate Valid()
      reads this
    {
      && 0 < nextId
      && (forall i :: 0 <= i < |rows| ==> 0 < rows[i].id < nextId)
      && (forall i, j :: 0 <= i < j < |rows| ==> rows[i].id < rows[j].id)
    }

    /** Opening the database file. `CREATE TABLE IF NOT EXISTS` keeps the
        rows the file already holds, `stored`, and SQLite's AUTOINCREMENT
        counter for the table, `lastId`, is the largest key ever handed out
        (0 for a new file). A new file is `Database([], 0)`. */
    constructor (stored: seq<Row>, lastId: nat)
      requires forall i :: 0 <= i < |stored| ==> 0 < stored[i].id <= lastId
      requires forall i, j :: 0 <= i < j < |stored| ==> stored[i].id < stored[j].id
      ensures Valid() && rows == stored && nextId == lastId + 1
    {
      rows := stored;
      nextId := lastId + 1;
    }

    /** INSERT of one record. No content check is made: empty names and names
        with whitespace are stored exactly as given. */
    method SaveSubmission(record: Submission)
      requires Valid()
      modifies this
      ensures Valid()
      ensures |rows| == |old(rows)| + 1 && rows[..|old(rows)|] == old(rows)
      ensures Stores(rows[|old(rows)|], record)
      ensures forall i :: 0 <= i < |old(rows)| ==> old(rows)[i].id < rows[|old(rows)|].id
    {
      rows := rows + [Row(nextId, record.date, record.firstName, record.lastName)];
      nextId := nextId + 1;
    }
  }
}
