/** When the transaction log of a call is well bracketed: always, unless SQLite rolls back
    on its own under an open nested call, or refuses to commit one. */
module TransactionBrackets {
  import opened Options
  import opened SqliteConnection
  import opened TransactionRunner
  import opened TransactionShapes

  /** Reads a log as brackets: a savepoint opens under a name that is not open, and
      only the innermost open one is rolled back to or released. */
  datatype Scan = Broken | Open(names: seq<string>)

  function ScanOne(s: Scan, cmd: Command): Scan {
    if s.Broken? then Broken
    else match cmd
      case Savepoint(n) => if n in s.names then Broken else Open(s.names + [n])
      case Release(n) =>
        if s.names != [] && s.names[|s.names| - 1] == n then Open(s.names[..|s.names| - 1]) else Broken
      case RollbackTo(n) =>
        if s.names != [] && s.names[|s.names| - 1] == n then s else Broken
      case _ => Broken
  }

  function ScanLog(s: Scan, log: seq<Command>): Scan
    decreases |log|
  {
    if log == [] then s else ScanLog(ScanOne(s, log[0]), log[1..])
  }

  lemma {:induction false} ScanConcat(s: Scan, a: seq<Command>, b: seq<Command>)
    ensures ScanLog(s, a + b) == ScanLog(ScanLog(s, a), b)
    decreases |a|
  {
    if a == [] {
      assert a + b == b;
    } else {
      ScanConcat(ScanOne(s, a[0]), a[1..], b);
      assert (a + b)[1..] == a[1..] + b;
    }
  }

  /** The names open while a callback runs at this frame depth. */
  function OpenNames(depth: nat): seq<string>
    requires depth >= 1
  {
    seq(depth - 1, (i: nat) => SavepointName(i + 1))
  }

  lemma NextNameIsNew(depth: nat)
    requires depth >= 1
    ensures SavepointName(depth) !in OpenNames(depth)
    ensures OpenNames(depth + 1) == OpenNames(depth) + [SavepointName(depth)]
  {
    if SavepointName(depth) in OpenNames(depth) {
      var i :| 0 <= i < depth - 1 && OpenNames(depth)[i] == SavepointName(depth);
      SavepointNameInjective(i + 1, depth);
    }
  }

  function Closing(name: string, returned: bool): seq<Command> {
    if returned then [Release(name)] else [RollbackTo(name), Release(name)]
  }

  lemma EndNestedLog(outer: seq<Save>, c: Conn, returned: bool, depth: nat, k: Check)
    requires |c.stack| == |outer| + 1 && c.stack[..|outer|] == outer
    requires c.stack[|outer|].mark == Named(SavepointName(depth)) &&
             (returned && outer == [] ==> k(c.stack[0].snapshot, c.db))
    ensures Since(c, EndNested(c, returned, depth, k).0) == Closing(SavepointName(depth), returned)
  {}

  lemma CloseScan(name: string, names: seq<string>, returned: bool)
    ensures ScanLog(Open(names + [name]), Closing(name, returned)) == Open(names)
  {
    var s := Open(names + [name]);
    assert (names + [name])[..|names|] == names;
    assert ScanOne(s, Release(name)) == Open(names);
    assert [RollbackTo(name), Release(name)][1..] == [Release(name)];
    assert [Release(name)][1..] == [];
    assert ScanLog(s, [Release(name)]) == ScanLog(Open(names), []);
  }

  /** A run that meets no automatic rollback has a well-bracketed log, under names
      pairwise distinct at every point. */
  lemma {:induction false} CallbackBracketed(p: Prog, c: Conn, depth: nat, k: Check)
    requires !Meaning(p, c.db).Aborted? && depth >= 1 && c.stack != [] && NamesBelow(c.stack, depth)
    ensures ScanLog(Open(OpenNames(depth)), Since(c, Callback(p, c, depth, k).0)) == Open(OpenNames(depth))
    decreases p, 0
  {
    hide NestedCall, SavepointName, NamesBelow;
    match p
    case Return =>
    case Throw =>
    case Write(f, next, _) => CallbackBracketed(next, c.(db := f(c.db)), depth, k);
    case Branch(test, yes, no) => CallbackBracketed(if test(c.db) then yes else no, c, depth, k);
    case Nested(child, onOk, onErr) =>
      NestedMeans(child, c, depth, k);
      NestedBracketed(child, c, depth, k);
      var (c', ok) := NestedCall(child, c, depth, k);
      CallbackBracketed(if ok then onOk else onErr, c', depth, k);
      Continues(Open(OpenNames(depth)), p, c, depth, k);
  }

  /** The log of a nested call and of what comes after it, read one after the other. */
  lemma Continues(s: Scan, p: Prog, c: Conn, depth: nat, k: Check)
    requires p.Nested?
    ensures var (c', ok) := NestedCall(p.child, c, depth, k);
            var next := if ok then p.onOk else p.onErr;
            ScanLog(s, Since(c, Callback(p, c, depth, k).0)) ==
            ScanLog(ScanLog(s, Since(c, c')), Since(c', Callback(next, c', depth, k).0))
  {
    hide NestedCall;
    var (c', ok) := NestedCall(p.child, c, depth, k);
    var next := if ok then p.onOk else p.onErr;
    NestedAdds(p.child, c, depth, k);
    CallbackAdds(next, c', depth, k);
    var c2 := Callback(next, c', depth, k).0;
    AddsTransitive(c, c', c2);
    ScanConcat(s, Since(c, c'), Since(c', c2));
  }

  /** The log of a nested call: its SAVEPOINT, its callback, its end. */
  lemma NestedLog(p: Prog, c: Conn, depth: nat, k: Check)
    requires depth >= 1
    ensures var c0 := Exec(c, Savepoint(SavepointName(depth)), k).0;
            var (c1, returned) := Callback(p, c0, depth + 1, k);
            ScanLog(Open(OpenNames(depth)), Since(c, NestedCall(p, c, depth, k).0)) ==
            ScanLog(ScanLog(Open(OpenNames(depth + 1)), Since(c0, c1)), Since(c1, EndNested(c1, returned, depth, k).0))
  {
    hide Callback, EndNested;
    var name, o := SavepointName(depth), Open(OpenNames(depth));
    NextNameIsNew(depth);
    var c0 := Exec(c, Savepoint(name), k).0;
    CallbackAdds(p, c0, depth + 1, k);
    var (c1, returned) := Callback(p, c0, depth + 1, k);
    var c2 := EndNested(c1, returned, depth, k).0;
    EndNestedAdds(c1, returned, depth, k);
    assert Since(c, c0) == [Savepoint(name)];
    AddsTransitive(c, c0, c1);
    AddsTransitive(c, c1, c2);
    ScanConcat(o, Since(c, c1), Since(c1, c2));
    ScanConcat(o, [Savepoint(name)], Since(c0, c1));
    assert ScanLog(o, [Savepoint(name)]) == ScanLog(Open(OpenNames(depth + 1)), []);
  }

  lemma {:induction false} NestedBracketed(p: Prog, c: Conn, depth: nat, k: Check)
    requires !Meaning(p, c.db).Aborted? && depth >= 1 && c.stack != [] && NamesBelow(c.stack, depth)
    ensures ScanLog(Open(OpenNames(depth)), Since(c, NestedCall(p, c, depth, k).0)) == Open(OpenNames(depth))
    decreases p, 1
  {
    hide Callback, EndNested, Meaning, Innermost, Closing, SavepointName, ScanLog, ScanOne, OpenNames;
    OpenSavepoint(c, depth, k);
    var c0 := Exec(c, Savepoint(SavepointName(depth)), k).0;
    CallbackMeans(p, c0, depth + 1, k);
    CallbackBracketed(p, c0, depth + 1, k);
    var (c1, returned) := Callback(p, c0, depth + 1, k);
    NestedLog(p, c, depth, k);
    EndNestedLog(c.stack, c1, returned, depth, k);
    NextNameIsNew(depth);
    CloseScan(SavepointName(depth), OpenNames(depth), returned);
  }

  /* ----------------------------------------------------- and when it is not */

  /** The run meets an automatic rollback under an open nested call, or the refusal of a
      nested call that commits on its own. `begin` is the database BEGIN saw, if open. */
  predicate Unbalanced(p: Prog, db: Db, begin: Option<Db>, k: Check) {
    match p
    case Return => false
    case Throw => false
    case Write(f, next, failed) =>
      if begin.None? && !k(db, f(db)) then Unbalanced(failed, db, begin, k) else Unbalanced(next, f(db), begin, k)
    case Branch(test, yes, no) => if test(db) then Unbalanced(yes, db, begin, k) else Unbalanced(no, db, begin, k)
    case Abort(next) => Unbalanced(next, if begin.Some? then begin.value else db, None, k)
    case Nested(child, onOk, onErr) =>
      match Meaning(child, db)
      case Aborted => true
      case Rejected => Unbalanced(onErr, db, begin, k)
      case Resolved(db') => (begin.None? && !k(db, db')) || Unbalanced(onOk, db', begin, k)
  }

  function Begun(c: Conn): Option<Db> {
    if c.stack == [] then None else Some(c.stack[0].snapshot)
  }

  /** Past repair for a callback at this depth: broken, or with deeper names still open. */
  ghost predicate Off(s: Scan, depth: nat)
    requires depth >= 1
  {
    s.Broken? || exists m: nat :: m > depth && s == Open(OpenNames(m))
  }

  lemma {:induction false} BrokenStays(log: seq<Command>)
    ensures ScanLog(Broken, log) == Broken
    decreases |log|
  {
    if log != [] { BrokenStays(log[1..]); }
  }

  predicate StartsWith(log: seq<Command>, name: string) {
    log == [] || log[0] == Savepoint(name)
  }

  lemma OffStays(s: Scan, depth: nat, log: seq<Command>)
    requires depth >= 1 && Off(s, depth) && StartsWith(log, SavepointName(depth))
    ensures Off(ScanLog(s, log), depth)
  {
    hide SavepointName;
    if s.Broken? {
      BrokenStays(log);
    } else if log != [] {
      var m: nat :| m > depth && s == Open(OpenNames(m));
      assert s.names[depth - 1] == SavepointName(depth);
      BrokenStays(log[1..]);
    }
  }

  /** The first command of a callback is the SAVEPOINT of its first nested call. */
  lemma {:induction false} CallbackStarts(p: Prog, c: Conn, depth: nat, k: Check)
    ensures StartsWith(Since(c, Callback(p, c, depth, k).0), SavepointName(depth))
  {
    hide NestedCall, SavepointName;
    match p
    case Return =>
    case Throw =>
    case Write(f, next, failed) =>
      var (c', ok) := Wrote(c, f, k);
      CallbackStarts(if ok then next else failed, c', depth, k);
    case Branch(test, yes, no) => CallbackStarts(if test(c.db) then yes else no, c, depth, k);
    case Abort(next) => CallbackStarts(next, AutoRollback(c), depth, k);
    case Nested(child, onOk, onErr) =>
      var (c', ok) := NestedCall(child, c, depth, k);
      NestedAdds(child, c, depth, k);
      NestedStarts(child, c, depth, k);
      CallbackAdds(if ok then onOk else onErr, c', depth, k);
      AddsTransitive(c, c', Callback(if ok then onOk else onErr, c', depth, k).0);
  }

  lemma NestedStarts(p: Prog, c: Conn, depth: nat, k: Check)
    ensures var l := Since(c, NestedCall(p, c, depth, k).0); l != [] && l[0] == Savepoint(SavepointName(depth))
  {
    hide Callback, EndNested, SavepointName;
    var c0 := Exec(c, Savepoint(SavepointName(depth)), k).0;
    CallbackAdds(p, c0, depth + 1, k);
    var (c1, returned) := Callback(p, c0, depth + 1, k);
    EndNestedAdds(c1, returned, depth, k);
    AddsTransitive(c0, c1, EndNested(c1, returned, depth, k).0);
  }

  /** Ending a nested call whose savepoint is gone leaves the brackets off. */
  lemma EndGoneScan(s: Scan, c: Conn, returned: bool, depth: nat, k: Check)
    requires depth >= 1 && c.stack == [] && (s == Open(OpenNames(depth + 1)) || Off(s, depth + 1))
    ensures Off(ScanLog(s, Since(c, EndNested(c, returned, depth, k).0)), depth)
  {
    var name := SavepointName(depth);
    var log := Since(c, EndNested(c, returned, depth, k).0);
    assert log == if returned then [Release(name), RollbackTo(name)] else [RollbackTo(name)];
    hide EndNested, SavepointName;
    if s.Broken? {
      BrokenStays(log);
    } else {
      var m: nat :| m > depth && s == Open(OpenNames(m));
      TopName(m);
      NextNameIsNew(depth);
      if m > depth + 1 {
        OtherName(m - 1, depth);
        BrokenStays(log[1..]);
      } else if returned {
        assert s.names[..depth - 1] == OpenNames(depth);
        assert log[1..][0] == RollbackTo(name);
        BrokenStays(log[1..][1..]);
      } else {
        assert log[1..] == [];
      }
    }
  }

  lemma TopName(m: nat)
    requires m >= 2
    ensures OpenNames(m) != [] && OpenNames(m)[|OpenNames(m)| - 1] == SavepointName(m - 1)
  {}

  lemma OtherName(m: nat, n: nat)
    requires m != n
    ensures SavepointName(m) != SavepointName(n)
  {
    if SavepointName(m) == SavepointName(n) { SavepointNameInjective(m, n); }
  }

  /** The refusal of an outermost RELEASE: the ROLLBACK TO behind it has no bracket. */
  lemma RefusedScan(snapshot: Db, c: Conn, depth: nat, k: Check)
    requires depth >= 1 && c.stack == [Save(Named(SavepointName(depth)), snapshot)] && !k(snapshot, c.db)
    ensures Off(ScanLog(Open(OpenNames(depth + 1)), Since(c, EndNested(c, true, depth, k).0)), depth)
  {
    var name := SavepointName(depth);
    assert c.stack[..1] == c.stack;
    var log := Since(c, EndNested(c, true, depth, k).0);
    assert log == [Release(name), RollbackTo(name), Release(name)];
    hide EndNested, SavepointName;
    TopName(depth + 1);
    NextNameIsNew(depth);
    assert OpenNames(depth + 1)[..depth - 1] == OpenNames(depth);
    assert log[1..][0] == RollbackTo(name);
    BrokenStays(log[1..][1..]);
  }

  lemma {:induction false} CallbackScan(p: Prog, c: Conn, depth: nat, k: Check)
    requires depth >= 1 && NamesBelow(c.stack, depth)
    ensures var s := ScanLog(Open(OpenNames(depth)), Since(c, Callback(p, c, depth, k).0));
            if Unbalanced(p, c.db, Begun(c), k) then Off(s, depth) else s == Open(OpenNames(depth))
    decreases p, 0
  {
    hide NestedCall, SavepointName, NamesBelow, Off, OpenNames;
    match p
    case Return =>
    case Throw =>
    case Write(f, next, failed) =>
      var (c', ok) := Wrote(c, f, k);
      CallbackScan(if ok then next else failed, c', depth, k);
    case Branch(test, yes, no) => CallbackScan(if test(c.db) then yes else no, c, depth, k);
    case Abort(next) =>
      NothingBelow(depth);
      CallbackScan(next, AutoRollback(c), depth, k);
    case Nested(child, onOk, onErr) =>
      NothingBelow(depth);
      NestedScan(child, c, depth, k);
      NestedRun(child, c, depth, k);
      var (c', ok) := NestedCall(child, c, depth, k);
      var next := if ok then onOk else onErr;
      Continues(Open(OpenNames(depth)), p, c, depth, k);
      if Meaning(child, c.db).Aborted? || Refused(child, c, k) {
        CallbackStarts(next, c', depth, k);
        OffStays(ScanLog(Open(OpenNames(depth)), Since(c, c')), depth, Since(c', Callback(next, c', depth, k).0));
      } else {
        CallbackScan(next, c', depth, k);
      }
  }

  lemma {:induction false} NestedScan(p: Prog, c: Conn, depth: nat, k: Check)
    requires depth >= 1 && NamesBelow(c.stack, depth)
    ensures var s := ScanLog(Open(OpenNames(depth)), Since(c, NestedCall(p, c, depth, k).0));
            if Meaning(p, c.db).Aborted? || Refused(p, c, k) then Off(s, depth) else s == Open(OpenNames(depth))
    decreases p, 1
  {
    hide Callback, EndNested, Meaning, Innermost, Closing, Off, SavepointName, ScanLog, ScanOne, OpenNames, Tail,
         Unbalanced;
    OpenSavepoint(c, depth, k);
    var c0 := Exec(c, Savepoint(SavepointName(depth)), k).0;
    TailRun(p, c0, depth + 1, k);
    var (c1, returned) := Callback(p, c0, depth + 1, k);
    NestedLog(p, c, depth, k);
    if Meaning(p, c.db).Aborted? {
      CallbackScan(p, c0, depth + 1, k);
      EndGoneScan(ScanLog(Open(OpenNames(depth + 1)), Since(c0, c1)), c1, returned, depth, k);
    } else {
      CallbackBracketed(p, c0, depth + 1, k);
      if Refused(p, c, k) {
        RefusedScan(c.db, c1, depth, k);
      } else {
        EndNestedLog(c.stack, c1, returned, depth, k);
        NextNameIsNew(depth);
        CloseScan(SavepointName(depth), OpenNames(depth), returned);
      }
    }
  }

  /* ---------------------------------------------------------- whole calls */

  predicate Ending(e: seq<Command>) {
    e == [Commit] || e == [Rollback] || e == [Commit, Rollback]
  }

  ghost predicate BracketedBlock(b: seq<Command>) {
    exists inner, e :: ScanLog(Open([]), inner) == Open([]) && Ending(e) && b == [Begin] + inner + e
  }

  /** A call that meets no automatic rollback: BEGIN, balanced savepoints, COMMIT or ROLLBACK. */
  lemma TopBracketed(p: Prog, c: Conn, k: Check)
    requires c.stack == [] && !Meaning(p, c.db).Aborted?
    ensures BracketedBlock(Since(c, TopCall(p, c, k).0))
  {
    hide Callback, EndTop, SavepointName;
    var c1 := Exec(c, Begin, k).0;
    CallbackBracketed(p, c1, 1, k);
    assert OpenNames(1) == [];
    var inner, e := TopParts(p, c, k);
  }

  lemma TopParts(p: Prog, c: Conn, k: Check) returns (inner: seq<Command>, e: seq<Command>)
    requires c.stack == []
    ensures var c1 := Exec(c, Begin, k).0; inner == Since(c1, Callback(p, c1, 1, k).0)
    ensures OnlySavepoints(inner) && Ending(e) && Since(c, TopCall(p, c, k).0) == [Begin] + inner + e
  {
    hide Callback, TopCall, OnlySavepoints;
    inner := TopLog(p, c, k);
    var b := Since(c, TopCall(p, c, k).0);
    e := if b == [Begin] + inner + [Commit] then [Commit]
         else if b == [Begin] + inner + [Rollback] then [Rollback] else [Commit, Rollback];
  }

  /** What can be read as brackets holds savepoint commands only. */
  lemma {:induction false} ScannedIsSavepoints(s: Scan, log: seq<Command>)
    requires ScanLog(s, log).Open?
    ensures OnlySavepoints(log)
    decreases |log|
  {
    if log != [] {
      if ScanOne(s, log[0]).Broken? { BrokenStays(log[1..]); }
      ScannedIsSavepoints(ScanOne(s, log[0]), log[1..]);
      forall i | 0 <= i < |log| ensures log[i].Savepoint? || log[i].Release? || log[i].RollbackTo? {
        if i > 0 { assert log[i] == log[1..][i - 1]; }
      }
    }
  }

  lemma EndsBehind(a: seq<Command>, d: seq<Command>)
    requires Ending(d)
    ensures var end := ([Begin] + a + d)[|a| + 1]; end.Commit? || end.Rollback?
  {}

  lemma GoesOn(b: seq<Command>, e: seq<Command>, i: nat)
    requires OnlySavepoints(b) && i < |b|
    ensures var cmd := ([Begin] + b + e)[i + 1]; !cmd.Commit? && !cmd.Rollback?
  {
    assert ([Begin] + b + e)[i + 1] == b[i];
  }

  lemma NotShorter(a: seq<Command>, d: seq<Command>, b: seq<Command>, e: seq<Command>)
    requires OnlySavepoints(b) && Ending(d) && [Begin] + a + d == [Begin] + b + e
    ensures |a| >= |b|
  {
    hide OnlySavepoints, Ending;
    if |a| < |b| {
      EndsBehind(a, d);
      GoesOn(b, e, |a|);
    }
  }

  lemma SameInner(a: seq<Command>, d: seq<Command>, b: seq<Command>, e: seq<Command>)
    requires OnlySavepoints(a) && OnlySavepoints(b) && Ending(d) && Ending(e)
    requires [Begin] + a + d == [Begin] + b + e
    ensures a == b
  {
    NotShorter(a, d, b, e);
    NotShorter(b, e, a, d);
    assert ([Begin] + a + d)[1..|a| + 1] == a && ([Begin] + b + e)[1..|b| + 1] == b;
  }

  /** The log of a call is well bracketed exactly when no automatic rollback happens under
      an open nested call and none that commits on its own is refused. */
  lemma TopBracketedIff(p: Prog, c: Conn, k: Check)
    requires c.stack == []
    ensures BracketedBlock(Since(c, TopCall(p, c, k).0)) <==> !Unbalanced(p, c.db, Some(c.db), k)
  {
    hide Callback, TopCall, SavepointName, Unbalanced;
    var c1 := Exec(c, Begin, k).0;
    CallbackScan(p, c1, 1, k);
    assert OpenNames(1) == [];
    var inner, e := TopParts(p, c, k);
    var b := Since(c, TopCall(p, c, k).0);
    if BracketedBlock(b) {
      var other, d :| ScanLog(Open([]), other) == Open([]) && Ending(d) && b == [Begin] + other + d;
      ScannedIsSavepoints(Open([]), other);
      SameInner(inner, e, other, d);
      NotOff();
    }
  }

  lemma NotOff()
    ensures !Off(Open([]), 1)
  {
    forall m: nat | m > 1 ensures Open([]) != Open(OpenNames(m)) { assert |OpenNames(m)| == m - 1; }
  }

  /** An automatic rollback inside a nested call: ROLLBACK TO finds no savepoint, and its
      SAVEPOINT is never closed. */
  lemma RollbackUnderNested(c: Conn, k: Check)
    requires c.stack == []
    ensures var p, b := Nested(Abort(Throw), Return, Return), SavepointName(1);
            Since(c, TopCall(p, c, k).0) == [Begin, Savepoint(b), RollbackTo(b), Commit, Rollback] &&
            !BracketedBlock(Since(c, TopCall(p, c, k).0))
  {
    var p, b := Nested(Abort(Throw), Return, Return), SavepointName(1);
    TopBracketedIff(p, c, k);
    hide SavepointName, BracketedBlock;
    var c1 := Exec(c, Begin, k).0;
    var c2 := Exec(c1, Savepoint(b), k).0;
    assert Callback(Abort(Throw), c2, 2, k) == Callback(Throw, AutoRollback(c2), 2, k) == (AutoRollback(c2), false);
    var c3 := Exec(AutoRollback(c2), RollbackTo(b), k).0;
    assert NestedCall(Abort(Throw), c1, 1, k) == (c3, false);
    assert Callback(p, c1, 1, k) == Callback(Return, c3, 1, k) == (c3, true);
    var c4 := Exec(c3, Commit, k).0;
    assert TopCall(p, c, k) == (Exec(c4, Rollback, k).0, false);
  }
}
