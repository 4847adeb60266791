/** Exactly which callbacks are atomic calls: programs of one shape differ in what their
    statements write and their tests say, and a shape is safe for all of them when no
    run of it leaves a write behind after an automatic rollback. */
module TransactionShapes {
  import opened Options
  import opened SqliteConnection
  import opened TransactionRunner

  predicate SameShape(p: Prog, q: Prog) {
    match p
    case Return => q.Return?
    case Throw => q.Throw?
    case Write(_, next, failed) => q.Write? && SameShape(next, q.next) && SameShape(failed, q.failed)
    case Branch(_, yes, no) => q.Branch? && SameShape(yes, q.yes) && SameShape(no, q.no)
    case Abort(next) => q.Abort? && SameShape(next, q.next)
    case Nested(child, onOk, onErr) =>
      q.Nested? && SameShape(child, q.child) && SameShape(onOk, q.onOk) && SameShape(onErr, q.onErr)
  }

  /** Shape decides what a run may do. */
  lemma {:induction false} ShapeDecides(p: Prog, q: Prog)
    requires SameShape(p, q)
    ensures forall from, to :: Returns(p, from, to) == Returns(q, from, to)
    ensures Throws(p) == Throws(q) && Aborts(p) == Aborts(q) && Strays(p) == Strays(q) &&
            AbortStrays(p) == AbortStrays(q)
  {
    match p
    case Return =>
    case Throw =>
    case Write(_, next, _) => ShapeDecides(next, q.next);
    case Branch(_, yes, no) =>
      ShapeDecides(yes, q.yes);
      ShapeDecides(no, q.no);
    case Abort(next) => ShapeDecides(next, q.next);
    case Nested(child, onOk, onErr) =>
      ShapeDecides(child, q.child);
      ShapeDecides(onOk, q.onOk);
      ShapeDecides(onErr, q.onErr);
      var r := q.child;
      assert Returns(child, false, false) == Returns(r, false, false) &&
        Returns(child, false, true) == Returns(r, false, true);
      assert MayReturn(child) == MayReturn(r);
  }

  /* ------------------------------ runs after an automatic rollback, as values */

  /** The database after a callback outside any transaction, where each statement and
      each outermost savepoint commits on its own. */
  function Loose(p: Prog, db: Db, k: Check): Db {
    match p
    case Return => db
    case Throw => db
    case Write(f, next, failed) => if k(db, f(db)) then Loose(next, f(db), k) else Loose(failed, db, k)
    case Branch(test, yes, no) => if test(db) then Loose(yes, db, k) else Loose(no, db, k)
    case Abort(next) => Loose(next, db, k)
    case Nested(child, onOk, onErr) =>
      match Meaning(child, db)
      case Resolved(db') => if k(db, db') then Loose(onOk, db', k) else Loose(onErr, db, k)
      case Rejected => Loose(onErr, db, k)
      case Aborted => Loose(onErr, Tail(child, db, db, k), k)
  }

  /** The database after a callback that met an automatic rollback to `base`. */
  function Tail(p: Prog, base: Db, db: Db, k: Check): Db
    requires Meaning(p, db).Aborted?
  {
    match p
    case Write(f, next, _) => Tail(next, base, f(db), k)
    case Branch(test, yes, no) => if test(db) then Tail(yes, base, db, k) else Tail(no, base, db, k)
    case Abort(next) => Loose(next, base, k)
    case Nested(child, onOk, onErr) =>
      match Meaning(child, db)
      case Resolved(db') => Tail(onOk, base, db', k)
      case Rejected => Tail(onErr, base, db, k)
      case Aborted => Loose(onErr, Tail(child, base, db, k), k)
  }

  /** Whether that callback returns. */
  predicate LooseReturns(p: Prog, db: Db, k: Check) {
    match p
    case Return => true
    case Throw => false
    case Write(f, next, failed) =>
      if k(db, f(db)) then LooseReturns(next, f(db), k) else LooseReturns(failed, db, k)
    case Branch(test, yes, no) => if test(db) then LooseReturns(yes, db, k) else LooseReturns(no, db, k)
    case Abort(next) => LooseReturns(next, db, k)
    case Nested(child, onOk, onErr) =>
      match Meaning(child, db)
      case Resolved(db') => if k(db, db') then LooseReturns(onOk, db', k) else LooseReturns(onErr, db, k)
      case Rejected => LooseReturns(onErr, db, k)
      case Aborted => LooseReturns(onErr, Tail(child, db, db, k), k)
  }

  predicate TailReturns(p: Prog, base: Db, db: Db, k: Check)
    requires Meaning(p, db).Aborted?
  {
    match p
    case Write(f, next, _) => TailReturns(next, base, f(db), k)
    case Branch(test, yes, no) => if test(db) then TailReturns(yes, base, db, k) else TailReturns(no, base, db, k)
    case Abort(next) => LooseReturns(next, base, k)
    case Nested(child, onOk, onErr) =>
      match Meaning(child, db)
      case Resolved(db') => TailReturns(onOk, base, db', k)
      case Rejected => TailReturns(onErr, base, db, k)
      case Aborted => LooseReturns(onErr, Tail(child, base, db, k), k)
  }

  lemma {:induction false} LooseRun(p: Prog, c: Conn, depth: nat, k: Check)
    requires c.stack == []
    ensures var (c', returned) := Callback(p, c, depth, k);
            c'.stack == [] && c'.db == Loose(p, c.db, k) && returned == LooseReturns(p, c.db, k)
    decreases p, 0
  {
    match p
    case Return =>
    case Throw =>
    case Write(f, next, failed) =>
      var (c', ok) := Wrote(c, f, k);
      LooseRun(if ok then next else failed, c', depth, k);
    case Branch(test, yes, no) => LooseRun(if test(c.db) then yes else no, c, depth, k);
    case Abort(next) => LooseRun(next, AutoRollback(c), depth, k);
    case Nested(child, onOk, onErr) =>
      NestedRun(child, c, depth, k);
      var (c', ok) := NestedCall(child, c, depth, k);
      LooseRun(if ok then onOk else onErr, c', depth, k);
  }

  lemma {:induction false} TailRun(p: Prog, c: Conn, depth: nat, k: Check)
    requires c.stack != [] && NamesBelow(c.stack, depth)
    ensures var (c', returned) := Callback(p, c, depth, k);
            match Meaning(p, c.db)
            case Resolved(db') => returned && c'.db == db' && c'.stack == c.stack
            case Rejected => !returned && c'.stack == c.stack
            case Aborted => c'.stack == [] && c'.db == Tail(p, c.stack[0].snapshot, c.db, k) &&
                            returned == TailReturns(p, c.stack[0].snapshot, c.db, k)
    decreases p, 0
  {
    match p
    case Return =>
    case Throw =>
    case Write(f, next, _) => TailRun(next, c.(db := f(c.db)), depth, k);
    case Branch(test, yes, no) => TailRun(if test(c.db) then yes else no, c, depth, k);
    case Abort(next) => LooseRun(next, AutoRollback(c), depth, k);
    case Nested(child, onOk, onErr) =>
      NestedRun(child, c, depth, k);
      var (c', ok) := NestedCall(child, c, depth, k);
      if Meaning(child, c.db).Aborted? {
        LooseRun(onErr, c', depth, k);
      } else {
        TailRun(if ok then onOk else onErr, c', depth, k);
      }
  }

  /** Whether the call's RELEASE is refused: outermost, it commits. */
  predicate Refused(p: Prog, c: Conn, k: Check) {
    c.stack == [] && Meaning(p, c.db).Resolved? && !k(c.db, Meaning(p, c.db).db)
  }

  /** A nested call wherever it is made: inside a transaction it does what it means, and
      outside it is a transaction of its own. */
  lemma {:induction false} NestedRun(p: Prog, c: Conn, depth: nat, k: Check)
    requires NamesBelow(c.stack, depth)
    ensures var (c', resolved) := NestedCall(p, c, depth, k);
            match Meaning(p, c.db)
            case Resolved(db') =>
              c'.stack == c.stack &&
              if Refused(p, c, k) then !resolved && c'.db == c.db else resolved && c'.db == db'
            case Rejected => !resolved && c'.db == c.db && c'.stack == c.stack
            case Aborted => !resolved && c'.stack == [] &&
                            c'.db == Tail(p, if c.stack == [] then c.db else c.stack[0].snapshot, c.db, k)
    decreases p, 1
  {
    hide EndNested, Exec;
    OpenSavepoint(c, depth, k);
    var c0 := Exec(c, Savepoint(SavepointName(depth)), k).0;
    TailRun(p, c0, depth + 1, k);
    var (c1, returned) := Callback(p, c0, depth + 1, k);
    if c1.stack == [] {
      EndNestedGone(c1, returned, depth, k);
    } else if Refused(p, c, k) {
      EndNestedRefused(c.db, c1, depth, k);
    } else {
      EndNestedOpen(c.stack, c.db, c1, returned, depth, k);
    }
  }

  /** A savepoint that is a transaction of its own, and whose commit is refused. */
  lemma EndNestedRefused(snapshot: Db, c: Conn, depth: nat, k: Check)
    requires c.stack == [Save(Named(SavepointName(depth)), snapshot)] && !k(snapshot, c.db)
    ensures var (c', ok) := EndNested(c, true, depth, k); !ok && c'.stack == [] && c'.db == snapshot
  {
    assert c.stack[..1] == c.stack;
  }

  /* -------------------------------------------- names and errors of every run */

  /** No SAVEPOINT of the run is issued under a name that is open. */
  predicate FreshNames(p: Prog, c: Conn, depth: nat, k: Check) {
    match p
    case Return => true
    case Throw => true
    case Write(f, next, failed) =>
      var (c', ok) := Wrote(c, f, k);
      if ok then FreshNames(next, c', depth, k) else FreshNames(failed, c', depth, k)
    case Branch(test, yes, no) =>
      if test(c.db) then FreshNames(yes, c, depth, k) else FreshNames(no, c, depth, k)
    case Abort(next) => FreshNames(next, AutoRollback(c), depth, k)
    case Nested(child, onOk, onErr) =>
      var (c', ok) := NestedCall(child, c, depth, k);
      Innermost(c.stack, SavepointName(depth)) == -1 &&
      FreshNames(child, Exec(c, Savepoint(SavepointName(depth)), k).0, depth + 1, k) &&
      if ok then FreshNames(onOk, c', depth, k) else FreshNames(onErr, c', depth, k)
  }

  lemma {:induction false} RunIsFresh(p: Prog, c: Conn, depth: nat, k: Check)
    requires NamesBelow(c.stack, depth)
    ensures FreshNames(p, c, depth, k)
  {
    hide NestedCall, NamesBelow, Innermost;
    match p
    case Return =>
    case Throw =>
    case Write(f, next, failed) =>
      var (c', ok) := Wrote(c, f, k);
      RunIsFresh(if ok then next else failed, c', depth, k);
    case Branch(test, yes, no) => RunIsFresh(if test(c.db) then yes else no, c, depth, k);
    case Abort(next) =>
      NothingBelow(depth);
      RunIsFresh(next, AutoRollback(c), depth, k);
    case Nested(child, onOk, onErr) =>
      NothingBelow(depth);
      NotOpen(c.stack, depth);
      OpenSavepoint(c, depth, k);
      RunIsFresh(child, Exec(c, Savepoint(SavepointName(depth)), k).0, depth + 1, k);
      NestedRun(child, c, depth, k);
      var (c', ok) := NestedCall(child, c, depth, k);
      RunIsFresh(if ok then onOk else onErr, c', depth, k);
  }

  lemma NothingBelow(depth: nat)
    ensures NamesBelow([], depth)
  {}

  /** Every SAVEPOINT of a call is issued under a name not open, automatic rollbacks or not. */
  lemma SavepointNamesFresh(p: Prog, c: Conn, k: Check)
    requires c.stack == []
    ensures FreshNames(p, Exec(c, Begin, k).0, 1, k)
  {
    RunIsFresh(p, Exec(c, Begin, k).0, 1, k);
  }

  /** What the caller of a top-level call gets: nothing when the meaning commits, COMMIT's
      error when it is refused, and the callback's own error whenever the callback threw,
      whatever ROLLBACK did. */
  lemma TopRejectionMeans(p: Prog, c: Conn, k: Check)
    requires c.stack == []
    ensures TopRejection(p, c, k) ==
            match Meaning(p, c.db)
            case Resolved(db') => if k(c.db, db') then None else Some(OfCommand(Commit))
            case Rejected => Some(OfCallback)
            case Aborted => Some(if TailReturns(p, c.db, c.db, k) then OfCommand(Commit) else OfCallback)
  {
    hide Callback, Meaning, Tail, TailReturns;
    NothingBelow(1);
    TailRun(p, Exec(c, Begin, k).0, 1, k);
  }

  /** A top-level call on a connection that is inside a transaction is refused by BEGIN,
      and changes nothing. */
  lemma BeginRefused(p: Prog, c: Conn, k: Check)
    requires c.stack != []
    ensures var (c', resolved) := TopCall(p, c, k);
            !resolved && c'.db == c.db && c'.stack == c.stack && c'.log == c.log + [Begin] &&
            TopRejection(p, c, k) == Some(OfCommand(Begin))
  {
    hide Callback;
  }

  /** What ending a nested call gives the caller while its savepoint is the last open one. */
  lemma OpenRejection(outer: seq<Save>, snapshot: Db, c: Conn, returned: bool, depth: nat, k: Check)
    requires c.stack == outer + [Save(Named(SavepointName(depth)), snapshot)]
    ensures EndNestedRejection(c, returned, depth, k) ==
            if !returned then Some(OfCallback)
            else if outer == [] && !k(snapshot, c.db) then Some(OfCommand(Release(SavepointName(depth))))
            else None
  {
    hide SavepointName;
    var name := SavepointName(depth);
    assert Innermost(c.stack, name) == |outer|;
    assert c.stack[..|outer|] == outer && c.stack[..|outer| + 1] == c.stack;
  }

  lemma GoneRejection(c: Conn, returned: bool, depth: nat, k: Check)
    requires c.stack == []
    ensures EndNestedRejection(c, returned, depth, k) == Some(OfCommand(RollbackTo(SavepointName(depth))))
  {
    hide SavepointName;
  }

  /** And of a nested call: its callback's own error exactly when no automatic rollback
      closed its savepoint, and else the error of ROLLBACK TO; the error of RELEASE when
      that is refused. */
  lemma NestedRejectionMeans(p: Prog, c: Conn, depth: nat, k: Check)
    requires NamesBelow(c.stack, depth)
    ensures var name := SavepointName(depth);
            NestedRejection(p, c, depth, k) ==
            match Meaning(p, c.db)
            case Resolved(_) => if Refused(p, c, k) then Some(OfCommand(Release(name))) else None
            case Rejected => Some(OfCallback)
            case Aborted => Some(OfCommand(RollbackTo(name)))
  {
    OpenSavepoint(c, depth, k);
    var c0 := Exec(c, Savepoint(SavepointName(depth)), k).0;
    hide Callback, Meaning, NamesBelow, Tail, TailReturns, SavepointName, EndNestedRejection, Exec;
    TailRun(p, c0, depth + 1, k);
    var (c1, returned) := Callback(p, c0, depth + 1, k);
    if Meaning(p, c.db).Aborted? {
      GoneRejection(c1, returned, depth, k);
    } else {
      OpenRejection(c.stack, c.db, c1, returned, depth, k);
    }
  }

  /* ----------------------------------------- programs that write one stray row */

  function Mark(db: Db): Db {
    db["stray" := "row"]
  }

  const Always: Check := (found: Db, db: Db) => true

  const Yes: Db -> bool := (db: Db) => true

  /** The two databases these programs move between. */
  function At(written: bool): (db: Db)
    ensures Mark(db) == map["stray" := "row"]
  {
    if written then map["stray" := "row"] else map[]
  }

  predicate IsAt(db: Db, from: bool) {
    db == At(true) || (db == At(false) && !from)
  }

  function Marked(p: Prog): (q: Prog)
    ensures SameShape(p, q)
  {
    match p
    case Return => Return
    case Throw => Throw
    case Write(_, next, failed) => Write(Mark, Marked(next), Marked(failed))
    case Branch(_, yes, no) => Branch(Yes, Marked(yes), Marked(no))
    case Abort(next) => Abort(Marked(next))
    case Nested(child, onOk, onErr) => Nested(Marked(child), Marked(onOk), Marked(onErr))
  }

  /** A marked program keeps to the two databases, and never unwrites the row. */
  lemma {:induction false} MarkedMeans(p: Prog, from: bool)
    ensures var m := Meaning(Marked(p), At(from)); m.Resolved? ==> IsAt(m.db, from)
  {
    match p
    case Return =>
    case Throw =>
    case Write(_, next, failed) => MarkedMeans(next, true);
    case Branch(_, yes, no) => MarkedMeans(yes, from);
    case Abort(next) =>
    case Nested(child, onOk, onErr) =>
      MarkedMeans(child, from);
      match Meaning(Marked(child), At(from))
      case Resolved(db') => MarkedMeans(onOk, db' == At(true));
      case Rejected => MarkedMeans(onErr, from);
      case Aborted =>
  }

  lemma {:induction false} MarkedLoose(p: Prog, from: bool)
    ensures IsAt(Loose(Marked(p), At(from), Always), from)
  {
    match p
    case Return =>
    case Throw =>
    case Write(_, next, failed) => MarkedLoose(next, true);
    case Branch(_, yes, no) => MarkedLoose(yes, from);
    case Abort(next) => MarkedLoose(next, from);
    case Nested(child, onOk, onErr) =>
      MarkedMeans(child, from);
      match Meaning(Marked(child), At(from))
      case Resolved(db') => MarkedLoose(onOk, db' == At(true));
      case Rejected => MarkedLoose(onErr, from);
      case Aborted =>
        MarkedTail(child, from, from);
        MarkedLoose(onErr, Tail(Marked(child), At(from), At(from), Always) == At(true));
  }

  lemma {:induction false} MarkedTail(p: Prog, base: bool, from: bool)
    requires Meaning(Marked(p), At(from)).Aborted?
    ensures IsAt(Tail(Marked(p), At(base), At(from), Always), base)
  {
    match p
    case Write(_, next, failed) => MarkedTail(next, base, true);
    case Branch(_, yes, no) => MarkedTail(yes, base, from);
    case Abort(next) => MarkedLoose(next, base);
    case Nested(child, onOk, onErr) =>
      MarkedMeans(child, from);
      match Meaning(Marked(child), At(from))
      case Resolved(db') => MarkedTail(onOk, base, db' == At(true));
      case Rejected => MarkedTail(onErr, base, from);
      case Aborted =>
        MarkedTail(child, base, from);
        MarkedLoose(onErr, Tail(Marked(child), At(base), At(from), Always) == At(true));
  }

  /* -------------------------------- whatever a shape may do, some program does */

  lemma {:induction false} ReturnsFromWritten(p: Prog, from: bool, to: bool)
    requires Returns(p, from, to)
    ensures Returns(p, true, true)
  {
    match p
    case Return =>
    case Write(_, next, failed) => ReturnsFromWritten(next, true, to);
    case Branch(_, yes, no) => ReturnsFromWritten(if Returns(yes, from, to) then yes else no, from, to);
    case Nested(child, onOk, onErr) =>
      if Returns(child, from, false) && Returns(onOk, false, to) {
        ReturnsFromWritten(child, from, false);
        ReturnsFromWritten(onOk, false, to);
      } else if Returns(child, from, true) && Returns(onOk, true, to) {
        ReturnsFromWritten(child, from, true);
        ReturnsFromWritten(onOk, true, to);
      } else {
        ReturnsFromWritten(onErr, from, to);
      }
  }

  lemma SomeReturn(p: Prog, from: bool) returns (to: bool)
    requires MayReturn(p)
    ensures Returns(p, from, to)
  {
    to := from || Returns(p, false, true);
    if from { ReturnsFromWritten(p, false, Returns(p, false, true)); }
  }

  lemma {:induction false} MakeReturn(p: Prog, from: bool, to: bool) returns (q: Prog)
    requires Returns(p, from, to)
    ensures SameShape(p, q) && Meaning(q, At(from)) == Resolved(At(to))
  {
    match p
    case Return => q := p;
    case Write(_, next, failed) =>
      q := MakeReturn(next, true, to);
      q := Write(Mark, q, Marked(failed));
    case Branch(_, yes, no) =>
      if Returns(yes, from, to) {
        q := MakeReturn(yes, from, to);
        q := Branch(Yes, q, Marked(no));
      } else {
        q := MakeReturn(no, from, to);
        q := Branch((db: Db) => false, Marked(yes), q);
      }
    case Nested(child, onOk, onErr) =>
      if Throws(child) && Returns(onErr, from, to) {
        var qc := MakeThrow(child, from);
        var qe := MakeReturn(onErr, from, to);
        q := Nested(qc, Marked(onOk), qe);
      } else {
        var mid := Returns(child, from, true) && Returns(onOk, true, to);
        var qc := MakeReturn(child, from, mid);
        var qo := MakeReturn(onOk, mid, to);
        q := Nested(qc, qo, Marked(onErr));
      }
  }

  lemma {:induction false} MakeThrow(p: Prog, from: bool) returns (q: Prog)
    requires Throws(p)
    ensures SameShape(p, q) && Meaning(q, At(from)) == Rejected
  {
    match p
    case Throw => q := p;
    case Write(_, next, failed) =>
      q := MakeThrow(next, true);
      q := Write(Mark, q, Marked(failed));
    case Branch(_, yes, no) =>
      if Throws(yes) {
        q := MakeThrow(yes, from);
        q := Branch(Yes, q, Marked(no));
      } else {
        q := MakeThrow(no, from);
        q := Branch((db: Db) => false, Marked(yes), q);
      }
    case Nested(child, onOk, onErr) =>
      if Throws(child) && Throws(onErr) {
        var qc := MakeThrow(child, from);
        var qe := MakeThrow(onErr, from);
        q := Nested(qc, Marked(onOk), qe);
      } else {
        var mid := SomeReturn(child, from);
        var qc := MakeReturn(child, from, mid);
        var qo := MakeThrow(onOk, mid);
        q := Nested(qc, qo, Marked(onErr));
      }
  }

  /** `written`: whether the run leaves the row behind after all. */
  lemma {:induction false} MakeAbort(p: Prog, from: bool) returns (q: Prog, written: bool)
    requires Aborts(p)
    ensures SameShape(p, q) && Meaning(q, At(from)).Aborted? && Tail(q, At(false), At(from), Always) == At(written)
  {
    match p
    case Write(_, next, failed) =>
      q, written := MakeAbort(next, true);
      q := Write(Mark, q, Marked(failed));
    case Branch(_, yes, no) =>
      if Aborts(yes) {
        q, written := MakeAbort(yes, from);
        q := Branch(Yes, q, Marked(no));
      } else {
        q, written := MakeAbort(no, from);
        q := Branch((db: Db) => false, Marked(yes), q);
      }
    case Abort(next) =>
      MarkedLoose(next, false);
      q := Abort(Marked(next));
      written := Loose(Marked(next), At(false), Always) == At(true);
    case Nested(child, onOk, onErr) =>
      if Aborts(child) {
        var qc, wrote := MakeAbort(child, from);
        MarkedLoose(onErr, wrote);
        q := Nested(qc, Marked(onOk), Marked(onErr));
        written := Loose(Marked(onErr), At(wrote), Always) == At(true);
      } else if MayReturn(child) && Aborts(onOk) {
        var mid := SomeReturn(child, from);
        var qc := MakeReturn(child, from, mid);
        var qo;
        qo, written := MakeAbort(onOk, mid);
        q := Nested(qc, qo, Marked(onErr));
      } else {
        var qc := MakeThrow(child, from);
        var qe;
        qe, written := MakeAbort(onErr, from);
        q := Nested(qc, Marked(onOk), qe);
      }
  }

  /** From either database; a row already there stays. */
  lemma {:induction false} MakeStray(p: Prog, from: bool) returns (q: Prog)
    requires from || Strays(p)
    ensures SameShape(p, q) && Loose(q, At(from), Always) == At(true)
  {
    if from {
      MarkedLoose(p, true);
      q := Marked(p);
      return;
    }
    match p
    case Write(_, next, failed) =>
      MarkedLoose(next, true);
      q := Write(Mark, Marked(next), Marked(failed));
    case Branch(_, yes, no) =>
      if Strays(yes) {
        q := MakeStray(yes, false);
        q := Branch(Yes, q, Marked(no));
      } else {
        q := MakeStray(no, false);
        q := Branch((db: Db) => false, Marked(yes), q);
      }
    case Abort(next) =>
      q := MakeStray(next, false);
      q := Abort(q);
    case Nested(child, onOk, onErr) =>
      if Returns(child, false, true) || (Returns(child, false, false) && Strays(onOk)) {
        var mid := Returns(child, false, true);
        var qc := MakeReturn(child, false, mid);
        var qo := MakeStray(onOk, mid);
        q := Nested(qc, qo, Marked(onErr));
      } else if Throws(child) && Strays(onErr) {
        var qc := MakeThrow(child, false);
        var qe := MakeStray(onErr, false);
        q := Nested(qc, Marked(onOk), qe);
      } else {
        var qc, wrote;
        if AbortStrays(child) {
          qc := MakeAbortStray(child, false);
          wrote := true;
        } else {
          qc, wrote := MakeAbort(child, false);
        }
        var qe := MakeStray(onErr, wrote);
        q := Nested(qc, Marked(onOk), qe);
      }
  }

  lemma {:induction false} MakeAbortStray(p: Prog, from: bool) returns (q: Prog)
    requires AbortStrays(p)
    ensures SameShape(p, q) && Meaning(q, At(from)).Aborted? && Tail(q, At(false), At(from), Always) == At(true)
  {
    match p
    case Write(_, next, failed) =>
      q := MakeAbortStray(next, true);
      q := Write(Mark, q, Marked(failed));
    case Branch(_, yes, no) =>
      if AbortStrays(yes) {
        q := MakeAbortStray(yes, from);
        q := Branch(Yes, q, Marked(no));
      } else {
        q := MakeAbortStray(no, from);
        q := Branch((db: Db) => false, Marked(yes), q);
      }
    case Abort(next) =>
      q := MakeStray(next, false);
      q := Abort(q);
    case Nested(child, onOk, onErr) =>
      if MayReturn(child) && AbortStrays(onOk) {
        var mid := SomeReturn(child, from);
        var qc := MakeReturn(child, from, mid);
        var qo := MakeAbortStray(onOk, mid);
        q := Nested(qc, qo, Marked(onErr));
      } else if Throws(child) && AbortStrays(onErr) {
        var qc := MakeThrow(child, from);
        var qe := MakeAbortStray(onErr, from);
        q := Nested(qc, Marked(onOk), qe);
      } else {
        var qc, wrote;
        if AbortStrays(child) {
          qc := MakeAbortStray(child, from);
          wrote := true;
        } else {
          qc, wrote := MakeAbort(child, from);
        }
        var qe := MakeStray(onErr, wrote);
        q := Nested(qc, Marked(onOk), qe);
      }
  }

  /* -------------------------------------------------------- the exact condition */

  /** All of the callback's meaning or nothing, and no transaction left open. */
  predicate Atomic(p: Prog, c: Conn, k: Check) {
    var (c', resolved) := TopCall(p, c, k);
    (c'.db, resolved) == Atomically(p, c.db, k) && c'.stack == []
  }

  /** On every idle connection, under all deferred constraints. */
  ghost predicate AlwaysAtomic(p: Prog) {
    forall c: Conn, k: Check :: c.stack == [] ==> Atomic(p, c, k)
  }

  /** Every program of a shape is atomic exactly when the shape cannot leave a write
      behind after an automatic rollback. */
  lemma AtomicIff(p: Prog)
    ensures (forall q :: SameShape(p, q) ==> AlwaysAtomic(q)) <==> !AbortStrays(p)
  {
    if AbortStrays(p) {
      var q := MakeAbortStray(p, false);
      StrayIsNotAtomic(q);
    } else {
      forall q | SameShape(p, q) ensures AlwaysAtomic(q) {
        ShapeDecides(p, q);
        forall c: Conn, k: Check | c.stack == [] ensures Atomic(q, c, k) { TopAtomic(q, c, k); }
      }
    }
  }

  lemma StrayIsNotAtomic(q: Prog)
    requires Meaning(q, At(false)).Aborted? && Tail(q, At(false), At(false), Always) == At(true)
    ensures !AlwaysAtomic(q)
  {
    var c := Fresh(At(false));
    var c1 := Exec(c, Begin, Always).0;
    TailRun(q, c1, 1, Always);
    assert TopCall(q, c, Always).0.db == At(true);
    assert "stray" in At(true) && "stray" !in At(false);
    assert !Atomic(q, c, Always);
  }
}
