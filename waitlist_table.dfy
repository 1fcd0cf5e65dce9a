/** The `waitlist` table of the D1 database, as the handler sees it: created
    on demand by `CREATE TABLE IF NOT EXISTS`, appended to by `INSERT`, with
    `id INTEGER PRIMARY KEY AUTOINCREMENT` and `email_hash TEXT NOT NULL
    UNIQUE`. Storage failures that are not the uniqueness constraint (an
    unreachable database, a quota) come in from outside as an error text. */
module WaitlistTable {
  import opened Wrappers

  datatype Row = Row(id: nat, email: string, emailHash: string, createdAt: string, sourceIp: Option<string>)

  /** No two rows share an `email_hash`. */
  predicate UniqueHashes(rows: seq<Row>) {
    forall i, j | 0 <= i < j < |rows| :: rows[i].emailHash != rows[j].emailHash
  }

  /** Ids grow with insertion order and stay below the next id to hand out. */
  predicate IdsBelow(rows: seq<Row>, nextId: nat) {
    && (forall i, j | 0 <= i < j < |rows| :: rows[i].id < rows[j].id)
    && (forall i | 0 <= i < |rows| :: rows[i].id < nextId)
  }

  predicate HasHash(rows: seq<Row>, hash: string) {
    exists i | 0 <= i < |rows| :: rows[i].emailHash == hash
  }

  /** The text SQLite gives a statement that breaks the `UNIQUE` constraint
      on `email_hash`. */
  const UniqueViolation: string :=
    "D1_ERROR: UNIQUE constraint " + "failed: waitlist.email_hash: " + "SQLITE_CONSTRAINT"

  /** The text SQLite gives an `INSERT` into a table that does not exist. */
  const NoSuchTable: string := "D1_ERROR: no such table: waitlist: SQLITE_ERROR"

  /** Appending a row whose hash is new keeps the hashes unique and the ids
      ordered. */
  lemma AppendKeepsInvariant(rows: seq<Row>, nextId: nat, row: Row)
    requires UniqueHashes(rows) && IdsBelow(rows, nextId)
    requires !HasHash(rows, row.emailHash) && row.id == nextId
    ensures UniqueHashes(rows + [row]) && IdsBelow(rows + [row], nextId + 1)
  {
    var all := rows + [row];
    forall i, j | 0 <= i < j < |all| ensures all[i].emailHash != all[j].emailHash {
      if j == |rows| {
        assert all[i] == rows[i];
      }
    }
  }

  class Database {
    var tableExists: bool
    var rows: seq<Row>
    /** The next id AUTOINCREMENT will assign. */
    var nextId: nat

    ghost predicate Valid()
      reads this
    {
      && UniqueHashes(rows)
      && IdsBelow(rows, nextId)
      && (!tableExists ==> rows == [])
    }

    /** A fresh database: no table yet, ids start at 1. */
    constructor ()
      ensures Valid() && !tableExists && rows == [] && nextId == 1
    {
      tableExists := false;
      rows := [];
      nextId := 1;
    }

    /** `CREATE TABLE IF NOT EXISTS waitlist (...)`: succeeds unless the
        storage itself fails, whether or not the table is already there, and
        never touches existing rows. */
    method CreateTableIfNotExists(fault: Option<string>) returns (err: Option<string>)
      requires Valid()
      modifies this
      ensures Valid()
      ensures err == fault
      ensures tableExists == (old(tableExists) || fault.None?)
      ensures rows == old(rows) && nextId == old(nextId)
    {
      err := fault;
      if fault.None? {
        tableExists := true;
      }
    }

    /** `INSERT INTO waitlist (email, email_hash, created_at, source_ip)`:
        appends exactly one row with the next id, unless the storage fails,
        the table is missing, or the hash is already stored; on failure the
        table is unchanged. */
    method Insert(email: string, emailHash: string, createdAt: string, sourceIp: Option<string>,
                  fault: Option<string>) returns (err: Option<string>)
      requires Valid()
      modifies this
      ensures Valid() && tableExists == old(tableExists)
      ensures err.None? <==> fault.None? && old(tableExists) && !HasHash(old(rows), emailHash)
      ensures fault.Some? ==> err == fault
      ensures fault.None? && !old(tableExists) ==> err == Some(NoSuchTable)
      ensures fault.None? && old(tableExists) && HasHash(old(rows), emailHash) ==> err == Some(UniqueViolation)
      ensures err.None? ==>
        && rows == old(rows) + [Row(old(nextId), email, emailHash, createdAt, sourceIp)]
        && nextId == old(nextId) + 1
      ensures err.Some? ==> rows == old(rows) && nextId == old(nextId)
    {
      if fault.Some? {
        err := fault;
      } else if !tableExists {
        err := Some(NoSuchTable);
      } else if exists i | 0 <= i < |rows| :: rows[i].emailHash == emailHash {
        err := Some(UniqueViolation);
      } else {
        var row := Row(nextId, email, emailHash, createdAt, sourceIp);
        AppendKeepsInvariant(rows, nextId, row);
        rows := rows + [row];
        nextId := nextId + 1;
        err := None;
      }
    }
  }
}
