/** One SQLite connection as `SqliteExecHandle.exec` sees it: a database value, a
    stack of open transaction marks with the database each of them saved, and
    the log of the transaction commands it was handed. */
module SqliteConnection {
  /** Rows by key. A statement is any function of the whole database. */
  type Db = map<string, string>

  /** The deferred constraints: which database may be committed over the one its
      transaction found. SQLite counts the violations a transaction adds, so leaving
      the database as it was is always allowed, whatever it violates. */
  type Check = k: (Db, Db) -> bool | forall db: Db :: k(db, db)
    witness (found: Db, db: Db) => true

  datatype Mark = Outermost | Named(name: string)

  datatype Save = Save(mark: Mark, snapshot: Db)

  datatype Command =
    | Begin
    | Commit
    | Rollback
    | Savepoint(name: string)
    | Release(name: string)
    | RollbackTo(name: string)

  datatype Conn = Conn(db: Db, stack: seq<Save>, log: seq<Command>)

  function Fresh(db: Db): Conn {
    Conn(db, [], [])
  }

  /** Index of the innermost open savepoint of that name, or -1. */
  function Innermost(stack: seq<Save>, name: string): (i: int)
    ensures -1 <= i < |stack|
    ensures i >= 0 ==> stack[i].mark == Named(name)
    ensures forall j :: i < j < |stack| ==> stack[j].mark != Named(name)
  {
    if stack == [] then -1
    else if stack[|stack| - 1].mark == Named(name) then |stack| - 1
    else Innermost(stack[..|stack| - 1], name)
  }

  /** The effect of one command; the flag is false when `exec` throws. Closing the
      outermost mark commits, which fails when the deferred constraints do not
      allow the database over the one that mark saved; a failed command changes nothing. */
  function Effect(c: Conn, cmd: Command, constraints: Check): (r: (Conn, bool)) {
    match cmd
    case Begin =>
      if c.stack != [] then (c, false)
      else (c.(stack := [Save(Outermost, c.db)]), true)
    case Commit =>
      if c.stack == [] || !constraints(c.stack[0].snapshot, c.db) then (c, false) else (c.(stack := []), true)
    case Rollback =>
      if c.stack == [] then (c, false) else (AutoRollback(c), true)
    case Savepoint(name) =>
      (c.(stack := c.stack + [Save(Named(name), c.db)]), true)
    case Release(name) =>
      var i := Innermost(c.stack, name);
      if i < 0 || (i == 0 && !constraints(c.stack[0].snapshot, c.db)) then (c, false)
      else (c.(stack := c.stack[..i]), true)
    case RollbackTo(name) =>
      var i := Innermost(c.stack, name);
      if i < 0 then (c, false)
      else (c.(db := c.stack[i].snapshot, stack := c.stack[..i + 1]), true)
  }

  /** What SQLite does on its own when a statement fails fatally: the whole open
      transaction is gone and the database is the one BEGIN saw. */
  function AutoRollback(c: Conn): Conn {
    if c.stack == [] then c else c.(db := c.stack[0].snapshot, stack := [])
  }

  /** `handle.exec(cmd)`: the command is logged whether it succeeds or throws. */
  function Exec(c: Conn, cmd: Command, constraints: Check): (r: (Conn, bool))
    ensures r.0.log == c.log + [cmd]
  {
    var (e, ok) := Effect(c, cmd, constraints);
    (e.(log := c.log + [cmd]), ok)
  }

  /** A statement; outside a transaction it commits on its own, so it fails and changes
      nothing when the deferred constraints do not allow it. */
  function Wrote(c: Conn, f: Db -> Db, constraints: Check): (Conn, bool) {
    if c.stack == [] && !constraints(c.db, f(c.db)) then (c, false) else (c.(db := f(c.db)), true)
  }

  class Handle {
    var conn: Conn
    const constraints: Check

    constructor (db: Db, constraints: Check)
      ensures conn == Fresh(db) && this.constraints == constraints
    {
      conn := Fresh(db);
      this.constraints := constraints;
    }

    method Run(cmd: Command) returns (ok: bool)
      modifies this
      ensures (conn, ok) == Exec(old(conn), cmd, constraints)
      ensures !ok ==> conn.db == old(conn).db && conn.stack == old(conn).stack
    {
      var (e, done) := Effect(conn, cmd, constraints);
      conn := e.(log := conn.log + [cmd]);
      ok := done;
    }

    /** A statement of the callback, inside or outside a transaction. */
    method Statement(f: Db -> Db) returns (ok: bool)
      modifies this
      ensures (conn, ok) == Wrote(old(conn), f, constraints)
    {
      ok := conn.stack != [] || constraints(conn.db, f(conn.db));
      if ok { conn := conn.(db := f(conn.db)); }
    }

    /** A statement whose failure makes SQLite roll the transaction back. */
    method FatalStatement()
      modifies this
      ensures conn == AutoRollback(old(conn))
    {
      conn := AutoRollback(conn);
    }
  }
}
