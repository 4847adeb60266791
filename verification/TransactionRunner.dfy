/** `createSqliteTransactionRunner`: one awaited call of the runner, with its
    SAVEPOINT nesting, and what such a call means for the database. */
module TransactionRunner {
  import opened Options
  import opened SqliteConnection
  import Text

  /** What a callback does with the connection. `Write` goes on with `failed` when the
      statement is refused, `Branch` reads the database, `Abort` is a statement that makes
      SQLite roll the transaction back, `Nested` awaits a nested call and goes on with
      either outcome of it. */
  datatype Prog =
    | Return
    | Throw
    | Write(f: Db -> Db, next: Prog, failed: Prog)
    | Branch(test: Db -> bool, yes: Prog, no: Prog)
    | Abort(next: Prog)
    | Nested(child: Prog, onOk: Prog, onErr: Prog)

  function SavepointName(depth: nat): string {
    "app_sp_" + Text.ToDec(depth)
  }

  lemma SavepointNameInjective(m: nat, n: nat)
    requires SavepointName(m) == SavepointName(n)
    ensures m == n
  {
    assert SavepointName(m)[7..] == Text.ToDec(m);
    assert SavepointName(n)[7..] == Text.ToDec(n);
    Text.ToDecInjective(m, n);
  }

  /* ------------------------------------- what the runner does, step by step */

  /** The callback up to its return (true) or throw (false). */
  function Callback(p: Prog, c: Conn, depth: nat, k: Check): (Conn, bool)
    decreases p, 0
  {
    match p
    case Return => (c, true)
    case Throw => (c, false)
    case Write(f, next, failed) =>
      var (c', ok) := Wrote(c, f, k);
      if ok then Callback(next, c', depth, k) else Callback(failed, c', depth, k)
    case Branch(test, yes, no) => if test(c.db) then Callback(yes, c, depth, k) else Callback(no, c, depth, k)
    case Abort(next) => Callback(next, AutoRollback(c), depth, k)
    case Nested(child, onOk, onErr) =>
      var (c', ok) := NestedCall(child, c, depth, k);
      if ok then Callback(onOk, c', depth, k) else Callback(onErr, c', depth, k)
  }

  function NestedCall(child: Prog, c: Conn, depth: nat, k: Check): (Conn, bool)
    decreases child, 1
  {
    var (c1, returned) := Callback(child, Exec(c, Savepoint(SavepointName(depth)), k).0, depth + 1, k);
    EndNested(c1, returned, depth, k)
  }

  /** RELEASE on return; on a throw, or when RELEASE throws, ROLLBACK TO and RELEASE. */
  function EndNested(c: Conn, returned: bool, depth: nat, k: Check): (Conn, bool) {
    var name := SavepointName(depth);
    var (c1, released) := if returned then Exec(c, Release(name), k) else (c, false);
    if released then (c1, true)
    else
      var (c2, back) := Exec(c1, RollbackTo(name), k);
      (if back then Exec(c2, Release(name), k).0 else c2, false)
  }

  function TopCall(p: Prog, c: Conn, k: Check): (Conn, bool) {
    var (c1, began) := Exec(c, Begin, k);
    if !began then (c1, false)
    else
      var (c2, returned) := Callback(p, c1, 1, k);
      EndTop(c2, returned, k)
  }

  /** COMMIT on return; on a throw, or when COMMIT throws, ROLLBACK, its own error swallowed. */
  function EndTop(c: Conn, returned: bool, k: Check): (Conn, bool) {
    var (c1, committed) := if returned then Exec(c, Commit, k) else (c, false);
    if committed then (c1, true) else (Exec(c1, Rollback, k).0, false)
  }

  /* ----------------------------------------------- what a rejection carries */

  /** The error the caller gets: what the callback threw, or what a command did. */
  datatype Rejection = OfCallback | OfCommand(cmd: Command)

  function EndTopRejection(c: Conn, returned: bool, k: Check): Option<Rejection> {
    if !returned then Some(OfCallback)
    else if Exec(c, Commit, k).1 then None
    else Some(OfCommand(Commit))
  }

  function TopRejection(p: Prog, c: Conn, k: Check): Option<Rejection> {
    var (c1, began) := Exec(c, Begin, k);
    if !began then Some(OfCommand(Begin))
    else
      var (c2, returned) := Callback(p, c1, 1, k);
      EndTopRejection(c2, returned, k)
  }

  /** ROLLBACK TO and RELEASE run inside the catch: an error of theirs replaces the first. */
  function EndNestedRejection(c: Conn, returned: bool, depth: nat, k: Check): Option<Rejection> {
    var name := SavepointName(depth);
    var (c1, released) := if returned then Exec(c, Release(name), k) else (c, false);
    if released then None
    else
      var (c2, back) := Exec(c1, RollbackTo(name), k);
      if !back then Some(OfCommand(RollbackTo(name)))
      else if !Exec(c2, Release(name), k).1 then Some(OfCommand(Release(name)))
      else Some(if returned then OfCommand(Release(name)) else OfCallback)
  }

  function NestedRejection(p: Prog, c: Conn, depth: nat, k: Check): Option<Rejection> {
    var (c1, returned) := Callback(p, Exec(c, Savepoint(SavepointName(depth)), k).0, depth + 1, k);
    EndNestedRejection(c1, returned, depth, k)
  }

  /* -------------------------------------------------- the code, in its form */

  class Frame {
    var depth: nat

    constructor (depth: nat)
      ensures this.depth == depth
    {
      this.depth := depth;
    }
  }

  class Runner {
    const handle: Handle

    constructor (handle: Handle)
      ensures this.handle == handle
    {
      this.handle := handle;
    }

    method RunTop(callback: Prog) returns (resolved: bool, rejection: Option<Rejection>)
      modifies handle
      ensures (handle.conn, resolved) == TopCall(callback, old(handle.conn), handle.constraints)
      ensures rejection == TopRejection(callback, old(handle.conn), handle.constraints)
      ensures resolved <==> rejection == None
    {
      var frame := new Frame(1);
      var began := handle.Run(Begin);
      if !began { return false, Some(OfCommand(Begin)); }
      var returned := Await(frame, callback);
      rejection := Some(OfCallback);
      if returned {
        var committed := handle.Run(Commit);
        if committed { return true, None; }
        rejection := Some(OfCommand(Commit));
      }
      var _ := handle.Run(Rollback);
      resolved := false;
    }

    method RunNested(frame: Frame, callback: Prog) returns (resolved: bool, rejection: Option<Rejection>)
      modifies handle, frame
      ensures frame.depth == old(frame.depth)
      ensures (handle.conn, resolved) ==
              NestedCall(callback, old(handle.conn), frame.depth, handle.constraints)
      ensures rejection == NestedRejection(callback, old(handle.conn), frame.depth, handle.constraints)
      ensures resolved <==> rejection == None
      decreases callback, 1
    {
      var savepoint := SavepointName(frame.depth);
      frame.depth := frame.depth + 1;
      var _ := handle.Run(Savepoint(savepoint));
      resolved, rejection := false, Some(OfCallback);
      var returned := Await(frame, callback);
      if returned {
        resolved := handle.Run(Release(savepoint));
        rejection := if resolved then None else Some(OfCommand(Release(savepoint)));
      }
      if !resolved {
        var back := handle.Run(RollbackTo(savepoint));
        if back {
          var closed := handle.Run(Release(savepoint));
          if !closed { rejection := Some(OfCommand(Release(savepoint))); }
        } else {
          rejection := Some(OfCommand(RollbackTo(savepoint)));
        }
      }
      frame.depth := frame.depth - 1;
    }

    /** `await callback(db)`; a nested call inside it sees the frame. */
    method Await(frame: Frame, callback: Prog) returns (returned: bool)
      modifies handle, frame
      ensures frame.depth == old(frame.depth)
      ensures (handle.conn, returned) ==
              Callback(callback, old(handle.conn), frame.depth, handle.constraints)
      decreases callback, 0
    {
      match callback
      case Return => return true;
      case Throw => return false;
      case Write(f, next, failed) =>
        var ok := handle.Statement(f);
        if ok { returned := Await(frame, next); } else { returned := Await(frame, failed); }
      case Branch(test, yes, no) =>
        if test(handle.conn.db) { returned := Await(frame, yes); } else { returned := Await(frame, no); }
      case Abort(next) =>
        handle.FatalStatement();
        returned := Await(frame, next);
      case Nested(child, onOk, onErr) =>
        var ok, _ := RunNested(frame, child);
        if ok { returned := Await(frame, onOk); } else { returned := Await(frame, onErr); }
    }
  }

  /* ------------------------------------------------------- what it means */

  datatype Outcome = Resolved(db: Db) | Rejected | Aborted

  /** The callback as a transaction should be: a rejected nested call contributes
      nothing and leaves what its caller wrote before; an automatic rollback
      takes everything. No commands, no savepoints, no stack. */
  function Meaning(p: Prog, db: Db): Outcome {
    match p
    case Return => Resolved(db)
    case Throw => Rejected
    case Write(f, next, _) => Meaning(next, f(db))
    case Branch(test, yes, no) => if test(db) then Meaning(yes, db) else Meaning(no, db)
    case Abort(_) => Aborted
    case Nested(child, onOk, onErr) =>
      match Meaning(child, db)
      case Resolved(db') => Meaning(onOk, db')
      case Rejected => Meaning(onErr, db)
      case Aborted => Aborted
  }

  /** The database after one top-level call, all of it or nothing. */
  function Atomically(p: Prog, db: Db, k: Check): (Db, bool) {
    match Meaning(p, db)
    case Resolved(db') => if k(db, db') then (db', true) else (db, false)
    case _ => (db, false)
  }

  /* What programs of one shape may do, whatever their statements write and their
     tests say. Each statement and test is met at most once in a run. */

  /** Returns; `from` and `to` say whether something was written before and at the end. */
  predicate Returns(p: Prog, from: bool, to: bool)
    decreases p, 0
  {
    match p
    case Return => from == to
    case Throw => false
    case Write(_, next, _) => Returns(next, true, to)
    case Branch(_, yes, no) => Returns(yes, from, to) || Returns(no, from, to)
    case Abort(_) => false
    case Nested(child, onOk, onErr) =>
      (Returns(child, from, false) && Returns(onOk, false, to)) ||
      (Returns(child, from, true) && Returns(onOk, true, to)) ||
      (Throws(child) && Returns(onErr, from, to))
  }

  predicate MayReturn(p: Prog)
    decreases p, 1
  {
    Returns(p, false, false) || Returns(p, false, true)
  }

  predicate Throws(p: Prog)
    decreases p, 0
  {
    match p
    case Return => false
    case Throw => true
    case Write(_, next, _) => Throws(next)
    case Branch(_, yes, no) => Throws(yes) || Throws(no)
    case Abort(_) => false
    case Nested(child, onOk, onErr) => (MayReturn(child) && Throws(onOk)) || (Throws(child) && Throws(onErr))
  }

  /** Meets a statement on which SQLite rolls back. */
  predicate Aborts(p: Prog)
    decreases p, 0
  {
    match p
    case Return => false
    case Throw => false
    case Write(_, next, _) => Aborts(next)
    case Branch(_, yes, no) => Aborts(yes) || Aborts(no)
    case Abort(_) => true
    case Nested(child, onOk, onErr) =>
      Aborts(child) || (MayReturn(child) && Aborts(onOk)) || (Throws(child) && Aborts(onErr))
  }

  /** Outside any transaction, leaves a write behind. */
  predicate Strays(p: Prog)
    decreases p, 0
  {
    match p
    case Return => false
    case Throw => false
    case Write(_, _, _) => true
    case Branch(_, yes, no) => Strays(yes) || Strays(no)
    case Abort(next) => Strays(next)
    case Nested(child, onOk, onErr) =>
      Returns(child, false, true) || (Returns(child, false, false) && Strays(onOk)) ||
      ((Throws(child) || Aborts(child)) && Strays(onErr)) || AbortStrays(child)
  }

  /** Leaves a write behind after an automatic rollback, when no transaction is open
      any more and such a write is committed on its own. */
  predicate AbortStrays(p: Prog)
    decreases p, 0
  {
    match p
    case Return => false
    case Throw => false
    case Write(_, next, _) => AbortStrays(next)
    case Branch(_, yes, no) => AbortStrays(yes) || AbortStrays(no)
    case Abort(next) => Strays(next)
    case Nested(child, onOk, onErr) =>
      AbortStrays(child) || (MayReturn(child) && AbortStrays(onOk)) || (Throws(child) && AbortStrays(onErr)) ||
      (Aborts(child) && Strays(onErr))
  }

  /** What a run does is among what its shape may do. */
  lemma {:induction false} RunMay(p: Prog, base: Db, db: Db, from: bool)
    requires !from ==> db == base
    ensures match Meaning(p, db)
            case Resolved(db') => Returns(p, from, true) || (Returns(p, from, false) && db' == base)
            case Rejected => Throws(p)
            case Aborted => Aborts(p)
  {
    match p
    case Return =>
    case Throw =>
    case Write(f, next, _) => RunMay(next, base, f(db), true);
    case Branch(test, yes, no) => RunMay(if test(db) then yes else no, base, db, from);
    case Abort(_) =>
    case Nested(child, onOk, onErr) =>
      RunMay(child, base, db, from);
      RunMay(child, db, db, false);
      match Meaning(child, db)
      case Resolved(db') => RunMay(onOk, base, db', Returns(child, from, true));
      case Rejected => RunMay(onErr, base, db, from);
      case Aborted =>
  }

  /** Every open savepoint was named by a frame depth below this one. */
  predicate NamesBelow(stack: seq<Save>, depth: nat) {
    forall i :: 0 <= i < |stack| && stack[i].mark.Named? ==>
      exists d: nat :: d < depth && stack[i].mark.name == SavepointName(d)
  }

  lemma NotOpen(stack: seq<Save>, depth: nat)
    requires NamesBelow(stack, depth)
    ensures Innermost(stack, SavepointName(depth)) == -1
    ensures NamesBelow(stack, depth + 1)
  {
    var i := Innermost(stack, SavepointName(depth));
    if i >= 0 {
      var d: nat :| d < depth && stack[i].mark.name == SavepointName(d);
      SavepointNameInjective(d, depth);
    }
    forall i | 0 <= i < |stack| && stack[i].mark.Named?
      ensures exists d: nat :: d < depth + 1 && stack[i].mark.name == SavepointName(d)
    {
      var d: nat :| d < depth && stack[i].mark.name == SavepointName(d);
      assert d < depth + 1;
    }
  }

  lemma OpenSavepoint(c: Conn, depth: nat, k: Check)
    requires NamesBelow(c.stack, depth)
    ensures var c0 := Exec(c, Savepoint(SavepointName(depth)), k).0;
            c0.db == c.db && c0.stack == c.stack + [Save(Named(SavepointName(depth)), c.db)] &&
            NamesBelow(c0.stack, depth + 1)
  {
    NotOpen(c.stack, depth);
    var c0 := Exec(c, Savepoint(SavepointName(depth)), k).0;
    assert c0.stack[|c.stack|].mark.name == SavepointName(depth) && depth < depth + 1;
  }

  lemma ReleaseOpen(outer: seq<Save>, snapshot: Db, c: Conn, name: string, k: Check)
    requires c.stack == outer + [Save(Named(name), snapshot)] && (outer == [] ==> k(snapshot, c.db))
    ensures var (c', ok) := Exec(c, Release(name), k); ok && c'.stack == outer && c'.db == c.db
  {
    assert c.stack[..|outer|] == outer;
  }

  lemma RollbackToOpen(outer: seq<Save>, snapshot: Db, c: Conn, name: string, k: Check)
    requires c.stack == outer + [Save(Named(name), snapshot)]
    ensures var (c', ok) := Exec(c, RollbackTo(name), k); ok && c'.stack == c.stack && c'.db == snapshot
  {
    assert c.stack[..|outer| + 1] == c.stack;
  }

  /** Ending a nested call whose savepoint is still the innermost mark. */
  lemma EndNestedOpen(outer: seq<Save>, snapshot: Db, c: Conn, returned: bool, depth: nat, k: Check)
    requires c.stack == outer + [Save(Named(SavepointName(depth)), snapshot)]
    requires outer == [] && returned ==> k(snapshot, c.db)
    ensures var (c', ok) := EndNested(c, returned, depth, k);
            ok == returned && c'.stack == outer && c'.db == if returned then c.db else snapshot
  {
    hide SavepointName, Exec;
    var name := SavepointName(depth);
    if returned {
      ReleaseOpen(outer, snapshot, c, name, k);
    } else {
      RollbackToOpen(outer, snapshot, c, name, k);
      ReleaseOpen(outer, snapshot, Exec(c, RollbackTo(name), k).0, name, k);
    }
  }

  lemma EndNestedGone(c: Conn, returned: bool, depth: nat, k: Check)
    requires c.stack == []
    ensures var (c', ok) := EndNested(c, returned, depth, k);
            !ok && c'.stack == [] && c'.db == c.db
  {}

  /** Outside any transaction a callback that cannot leave a write behind leaves none. */
  lemma {:induction false} LooseKeeps(p: Prog, c: Conn, depth: nat, k: Check)
    requires !Strays(p) && c.stack == []
    ensures var c' := Callback(p, c, depth, k).0; c'.db == c.db && c'.stack == []
    decreases p, 0
  {
    match p
    case Return =>
    case Throw =>
    case Branch(test, yes, no) => LooseKeeps(if test(c.db) then yes else no, c, depth, k);
    case Abort(next) => LooseKeeps(next, AutoRollback(c), depth, k);
    case Nested(child, onOk, onErr) =>
      LooseNested(child, c, depth, k);
      var (c', ok) := NestedCall(child, c, depth, k);
      RunMay(child, c.db, c.db, false);
      LooseKeeps(if ok then onOk else onErr, c', depth, k);
  }

  lemma {:induction false} LooseNested(p: Prog, c: Conn, depth: nat, k: Check)
    requires !AbortStrays(p) && !Returns(p, false, true) && c.stack == []
    ensures var (c', ok) := NestedCall(p, c, depth, k);
            c'.db == c.db && c'.stack == [] && (ok <==> Meaning(p, c.db).Resolved?)
    decreases p, 1
  {
    hide EndNested, Exec;
    OpenSavepoint(c, depth, k);
    var c0 := Exec(c, Savepoint(SavepointName(depth)), k).0;
    CallbackMeans(p, c0, depth + 1, k);
    RunMay(p, c.db, c.db, false);
    var (c1, returned) := Callback(p, c0, depth + 1, k);
    if c1.stack == [] {
      EndNestedGone(c1, returned, depth, k);
    } else {
      EndNestedOpen([], c.db, c1, returned, depth, k);
    }
  }

  /** The callback on the connection does what it means: on a resolved outcome the
      database is the meant one and the same marks are open; on a rejected one
      the marks are still open, for the caller to roll back to. After an automatic
      rollback nothing is open and the database is BEGIN's, when the callback cannot
      leave a write behind. */
  lemma {:induction false} CallbackMeans(p: Prog, c: Conn, depth: nat, k: Check)
    requires c.stack != [] && NamesBelow(c.stack, depth)
    ensures var (c', returned) := Callback(p, c, depth, k);
            match Meaning(p, c.db)
            case Resolved(db') => returned && c'.db == db' && c'.stack == c.stack
            case Rejected => !returned && c'.stack == c.stack
            case Aborted => !AbortStrays(p) ==> c'.db == c.stack[0].snapshot && c'.stack == []
    decreases p, 0
  {
    match p
    case Return =>
    case Throw =>
    case Write(f, next, _) =>
      CallbackMeans(next, c.(db := f(c.db)), depth, k);
    case Branch(test, yes, no) =>
      CallbackMeans(if test(c.db) then yes else no, c, depth, k);
    case Abort(next) =>
      if !Strays(next) { LooseKeeps(next, AutoRollback(c), depth, k); }
    case Nested(child, onOk, onErr) =>
      NestedMeans(child, c, depth, k);
      RunMay(child, c.db, c.db, false);
      var (c', ok) := NestedCall(child, c, depth, k);
      if !Meaning(child, c.db).Aborted? {
        CallbackMeans(if ok then onOk else onErr, c', depth, k);
      } else if !AbortStrays(p) {
        LooseKeeps(onErr, c', depth, k);
      }
  }

  /** A rejected nested call restores exactly the database at its SAVEPOINT, with
      everything the callers wrote before it, and a resolved one keeps its own
      writes; either way its savepoint is closed and the outer ones stay open. */
  lemma {:induction false} NestedMeans(p: Prog, c: Conn, depth: nat, k: Check)
    requires c.stack != [] && NamesBelow(c.stack, depth)
    ensures var (c', resolved) := NestedCall(p, c, depth, k);
            match Meaning(p, c.db)
            case Resolved(db') => resolved && c'.db == db' && c'.stack == c.stack
            case Rejected => !resolved && c'.db == c.db && c'.stack == c.stack
            case Aborted => !AbortStrays(p) ==>
                              !resolved && c'.db == c.stack[0].snapshot && c'.stack == []
    decreases p, 1
  {
    hide EndNested, Exec, AbortStrays;
    OpenSavepoint(c, depth, k);
    var c0 := Exec(c, Savepoint(SavepointName(depth)), k).0;
    CallbackMeans(p, c0, depth + 1, k);
    var (c1, returned) := Callback(p, c0, depth + 1, k);
    if !Meaning(p, c.db).Aborted? {
      EndNestedOpen(c.stack, c.db, c1, returned, depth, k);
    } else if c1.stack == [] {
      EndNestedGone(c1, returned, depth, k);
    }
  }

  /** One top-level call is atomic: it leaves the database its meaning gives, a
      rejected one the database it found, and no transaction open. */
  lemma TopAtomic(p: Prog, c: Conn, k: Check)
    requires !AbortStrays(p) && c.stack == []
    ensures var (c', resolved) := TopCall(p, c, k);
            (c'.db, resolved) == Atomically(p, c.db, k) && c'.stack == [] && k(c.db, c'.db)
  {
    CallbackMeans(p, Exec(c, Begin, k).0, 1, k);
  }

  /** The condition matters: a callback that swallows the error of an automatic
      rollback and writes on leaves that row behind although it is rejected. */
  lemma WriteAfterAbortSurvives(c: Conn, k: Check)
    requires c.stack == []
    ensures var p, written := Abort(Write((db: Db) => db["stray" := "row"], Throw, Throw)), c.db["stray" := "row"];
            AbortStrays(p) &&
            TopCall(p, c, k).1 == false && TopCall(p, c, k).0.db == if k(c.db, written) then written else c.db
  {
    var w := Write((db: Db) => db["stray" := "row"], Throw, Throw);
    var c1 := Exec(c, Begin, k).0;
    var c2 := AutoRollback(c1);
    assert Callback(Abort(w), c1, 1, k) == Callback(w, c2, 1, k);
    var c3 := Wrote(c2, w.f, k).0;
    assert Callback(w, c2, 1, k) == Callback(Throw, c3, 1, k);
  }

  /* --------------------------------------------------- shape of the log */

  /** The commands `after` was handed since `before`, given that it was `before` once. */
  function Since(before: Conn, after: Conn): seq<Command> {
    if |before.log| <= |after.log| then after.log[|before.log|..] else []
  }

  predicate Extends(before: Conn, after: Conn) {
    |before.log| <= |after.log| && after.log[..|before.log|] == before.log
  }

  /** No command of a top-level call: only savepoints. */
  predicate OnlySavepoints(log: seq<Command>) {
    forall i :: 0 <= i < |log| ==> log[i].Savepoint? || log[i].Release? || log[i].RollbackTo?
  }

  predicate AddsSavepoints(before: Conn, after: Conn) {
    Extends(before, after) && OnlySavepoints(Since(before, after))
  }

  lemma AddsTransitive(a: Conn, b: Conn, c: Conn)
    requires AddsSavepoints(a, b) && AddsSavepoints(b, c)
    ensures AddsSavepoints(a, c) && Since(a, c) == Since(a, b) + Since(b, c)
  {}

  lemma EndNestedAdds(c: Conn, returned: bool, depth: nat, k: Check)
    ensures AddsSavepoints(c, EndNested(c, returned, depth, k).0)
  {
    var name := SavepointName(depth);
    var (c1, released) := if returned then Exec(c, Release(name), k) else (c, false);
    assert AddsSavepoints(c, c1);
    if !released {
      var (c2, back) := Exec(c1, RollbackTo(name), k);
      AddsTransitive(c, c1, c2);
      if back { AddsTransitive(c, c2, Exec(c2, Release(name), k).0); }
    }
  }

  lemma {:induction false} CallbackAdds(p: Prog, c: Conn, depth: nat, k: Check)
    ensures AddsSavepoints(c, Callback(p, c, depth, k).0)
    decreases p, 0
  {
    match p
    case Return =>
    case Throw =>
    case Write(f, next, failed) =>
      var (c', ok) := Wrote(c, f, k);
      CallbackAdds(if ok then next else failed, c', depth, k);
    case Branch(test, yes, no) => CallbackAdds(if test(c.db) then yes else no, c, depth, k);
    case Abort(next) => CallbackAdds(next, AutoRollback(c), depth, k);
    case Nested(child, onOk, onErr) =>
      var (c', ok) := NestedCall(child, c, depth, k);
      NestedAdds(child, c, depth, k);
      CallbackAdds(if ok then onOk else onErr, c', depth, k);
      AddsTransitive(c, c', Callback(if ok then onOk else onErr, c', depth, k).0);
  }

  lemma {:induction false} NestedAdds(p: Prog, c: Conn, depth: nat, k: Check)
    ensures AddsSavepoints(c, NestedCall(p, c, depth, k).0)
    decreases p, 1
  {
    var c0 := Exec(c, Savepoint(SavepointName(depth)), k).0;
    CallbackAdds(p, c0, depth + 1, k);
    var (c1, returned) := Callback(p, c0, depth + 1, k);
    EndNestedAdds(c1, returned, depth, k);
    AddsTransitive(c, c0, c1);
    AddsTransitive(c, c1, EndNested(c1, returned, depth, k).0);
  }

  /** BEGIN, savepoint commands only, then COMMIT or ROLLBACK, or a COMMIT that threw
      and its ROLLBACK. */
  ghost predicate IsBlock(b: seq<Command>) {
    exists inner :: OnlySavepoints(inner) &&
      (b == [Begin] + inner + [Commit] || b == [Begin] + inner + [Rollback] ||
       b == [Begin] + inner + [Commit, Rollback])
  }

  lemma TopBlock(p: Prog, c: Conn, k: Check)
    requires c.stack == []
    ensures Extends(c, TopCall(p, c, k).0) && IsBlock(Since(c, TopCall(p, c, k).0))
  {
    var inner := TopLog(p, c, k);
  }

  lemma EndTopLog(c: Conn, returned: bool, k: Check)
    ensures var l := EndTop(c, returned, k).0.log;
            l == c.log + [Commit] || l == c.log + [Rollback] || l == c.log + [Commit, Rollback]
  {
    assert c.log + [Commit, Rollback] == c.log + [Commit] + [Rollback];
  }

  lemma TopLog(p: Prog, c: Conn, k: Check) returns (inner: seq<Command>)
    requires c.stack == []
    ensures Extends(c, TopCall(p, c, k).0)
    ensures var c1 := Exec(c, Begin, k).0; inner == Since(c1, Callback(p, c1, 1, k).0)
    ensures OnlySavepoints(inner)
    ensures var b := Since(c, TopCall(p, c, k).0);
            b == [Begin] + inner + [Commit] || b == [Begin] + inner + [Rollback] ||
            b == [Begin] + inner + [Commit, Rollback]
  {
    hide EndTop, Callback;
    var c1 := Exec(c, Begin, k).0;
    CallbackAdds(p, c1, 1, k);
    var (c2, returned) := Callback(p, c1, 1, k);
    inner := Since(c1, c2);
    assert c2.log == c.log + ([Begin] + inner);
    EndTopLog(c2, returned, k);
    var b := Since(c, TopCall(p, c, k).0);
    var l := EndTop(c2, returned, k).0.log;
    if l == c2.log + [Commit] { assert b == [Begin] + inner + [Commit]; }
    else if l == c2.log + [Rollback] { assert b == [Begin] + inner + [Rollback]; }
    else { assert b == [Begin] + inner + [Commit, Rollback]; }
  }
}
