/** The runner under concurrency: any number of top-level calls on one connection,
    their promises, and an event loop that takes one enabled step after another in
    any order. Between two awaits JavaScript runs without interruption, so one step
    is one statement, one nested BEGIN/END, or one reaction of the promise chain. */
module TransactionSchedule {
  import opened SqliteConnection
  import opened TransactionRunner

  /** A nested call in progress: the depth that named its savepoint, and what the
      caller does with either outcome. */
  datatype Pending = Pending(at: nat, onOk: Prog, onErr: Prog)

  /** A callback in progress under its frame. */
  datatype Thread = Thread(cur: Prog, pending: seq<Pending>, depth: nat)

  /** `Promise.resolve()`, or the `tail` made by the i-th top-level call. */
  datatype Promise = Initially | TailOf(i: nat)

  /** `forwarded`: the tail promise made of this call's result has settled too. */
  datatype Phase = Queued | Running(thread: Thread) | Done(resolved: bool, forwarded: bool)

  datatype Txn = Txn(callback: Prog, after: Promise, phase: Phase)

  datatype World = World(conn: Conn, tail: Promise, txns: seq<Txn>)

  datatype Step =
    | Call(callback: Prog)   // a request calls the runner outside any frame
    | Start(i: nat)          // the reaction of `tail.then(runTop, runTop)`
    | Advance(i: nat)        // the i-th callback takes its next step
    | Forward(i: nat)        // the tail promise settles after the result

  datatype Next = Goes(thread: Thread) | Ends(resolved: bool)

  function ThreadStep(t: Thread, c: Conn, k: Check): (Next, Conn) {
    match t.cur
    case Write(f, next, failed) =>
      var (c', ok) := Wrote(c, f, k);
      (Goes(t.(cur := if ok then next else failed)), c')
    case Branch(test, yes, no) => (Goes(t.(cur := if test(c.db) then yes else no)), c)
    case Abort(next) => (Goes(t.(cur := next)), AutoRollback(c))
    case Nested(child, onOk, onErr) =>
      (Goes(Thread(child, t.pending + [Pending(t.depth, onOk, onErr)], t.depth + 1)),
       Exec(c, Savepoint(SavepointName(t.depth)), k).0)
    case _ =>
      var returned := t.cur.Return?;
      if t.pending == [] then
        var (c', ok) := EndTop(c, returned, k);
        (Ends(ok), c')
      else
        var p := t.pending[|t.pending| - 1];
        var (c', ok) := EndNested(c, returned, p.at, k);
        (Goes(Thread(if ok then p.onOk else p.onErr, t.pending[..|t.pending| - 1],
                     if t.depth > 0 then t.depth - 1 else 0)), c')
  }

  predicate Settled(w: World, p: Promise) {
    match p
    case Initially => true
    case TailOf(i) => i < |w.txns| && w.txns[i].phase.Done? && w.txns[i].phase.forwarded
  }

  predicate Enabled(w: World, s: Step) {
    match s
    case Call(_) => true
    case Start(i) => i < |w.txns| && w.txns[i].phase.Queued? && Settled(w, w.txns[i].after)
    case Advance(i) => i < |w.txns| && w.txns[i].phase.Running?
    case Forward(i) => i < |w.txns| && w.txns[i].phase.Done? && !w.txns[i].phase.forwarded
  }

  function WithPhase(w: World, i: nat, phase: Phase, c: Conn): World
    requires i < |w.txns|
  {
    w.(conn := c, txns := w.txns[i := w.txns[i].(phase := phase)])
  }

  function Take(w: World, s: Step, k: Check): World
    requires Enabled(w, s)
  {
    match s
    case Call(callback) =>
      w.(tail := TailOf(|w.txns|), txns := w.txns + [Txn(callback, w.tail, Queued)])
    case Start(i) =>
      var (c, began) := Exec(w.conn, Begin, k);
      WithPhase(w, i, if began then Running(Thread(w.txns[i].callback, [], 1)) else Done(false, false), c)
    case Advance(i) =>
      var (next, c) := ThreadStep(w.txns[i].phase.thread, w.conn, k);
      WithPhase(w, i, if next.Goes? then Running(next.thread) else Done(next.resolved, false), c)
    case Forward(i) =>
      WithPhase(w, i, Done(w.txns[i].phase.resolved, true), w.conn)
  }

  function Idle(db: Db): World {
    World(Fresh(db), Initially, [])
  }

  ghost predicate StepTo(v: World, s: Step, w: World, k: Check) {
    Enabled(v, s) && Take(v, s, k) == w
  }

  /** The worlds some interleaving reaches from an idle connection. */
  ghost predicate Reaches(db: Db, trace: seq<Step>, w: World, k: Check) {
    if trace == [] then w == Idle(db)
    else
      var before, last := trace[..|trace| - 1], trace[|trace| - 1];
      exists v :: Reaches(db, before, v, k) && StepTo(v, last, w, k)
  }

  function Callbacks(txns: seq<Txn>): seq<Prog> {
    seq(|txns|, i requires 0 <= i < |txns| => txns[i].callback)
  }

  /** The callbacks in call order, each one awaited before the next one starts. */
  function Serial(cbs: seq<Prog>, c: Conn, k: Check): (r: (Conn, seq<bool>))
    ensures |r.1| == |cbs|
  {
    if cbs == [] then (c, [])
    else
      var (c', rs) := Serial(cbs[..|cbs| - 1], c, k);
      var (c'', r) := TopCall(cbs[|cbs| - 1], c', k);
      (c'', rs + [r])
  }

  /* --------------------------- the chain keeps at most one call in progress */

  predicate Finished(t: Txn) {
    t.phase.Done? && t.phase.forwarded
  }

  predicate Resolved(t: Txn) {
    t.phase.Done? && t.phase.resolved
  }

  ghost predicate ThreadInv(t: Thread) {
    t.depth == |t.pending| + 1 && forall i :: 0 <= i < |t.pending| ==> t.pending[i].at == i + 1
  }

  /** Each call waits for the tail of the one before it, and has not left the queue
      unless every earlier call, and its tail, have settled. */
  ghost predicate ChainInv(w: World) {
    (w.tail == if w.txns == [] then Initially else TailOf(|w.txns| - 1)) &&
    (forall i :: 0 <= i < |w.txns| ==> w.txns[i].after == (if i == 0 then Initially else TailOf(i - 1))) &&
    (forall i, j :: 0 <= i < j < |w.txns| && !w.txns[j].phase.Queued? ==> Finished(w.txns[i])) &&
    (forall i :: 0 <= i < |w.txns| && w.txns[i].phase.Running? ==> ThreadInv(w.txns[i].phase.thread))
  }

  lemma ThreadStepInv(t: Thread, c: Conn, k: Check)
    requires ThreadInv(t)
    ensures var n := ThreadStep(t, c, k).0; n.Goes? ==> ThreadInv(n.thread)
  {}

  lemma ChainKept(w: World, s: Step, k: Check)
    requires ChainInv(w) && Enabled(w, s)
    ensures ChainInv(Take(w, s, k))
  {
    if s.Advance? { ThreadStepInv(w.txns[s.i].phase.thread, w.conn, k); }
  }

  /* ----------------------------- what is left to do never changes its result */

  /** The nested calls still open, resumed from the inside out, then the outer end. */
  function Resume(pending: seq<Pending>, c: Conn, returned: bool, k: Check): (Conn, bool)
    decreases |pending|
  {
    if pending == [] then EndTop(c, returned, k)
    else
      var p := pending[|pending| - 1];
      var (c1, ok) := EndNested(c, returned, p.at, k);
      var (c2, returned2) := Callback(if ok then p.onOk else p.onErr, c1, p.at, k);
      Resume(pending[..|pending| - 1], c2, returned2, k)
  }

  /** One call run to its end with nothing else in between. */
  function Finish(t: Txn, c: Conn, k: Check): (Conn, bool) {
    match t.phase
    case Queued => TopCall(t.callback, c, k)
    case Running(th) =>
      var (c1, returned) := Callback(th.cur, c, th.depth, k);
      Resume(th.pending, c1, returned, k)
    case Done(resolved, _) => (c, resolved)
  }

  function FinishAll(txns: seq<Txn>, c: Conn, k: Check): (r: (Conn, seq<bool>))
    ensures |r.1| == |txns|
  {
    if txns == [] then (c, [])
    else
      var (c', rs) := FinishAll(txns[..|txns| - 1], c, k);
      var (c'', r) := Finish(txns[|txns| - 1], c', k);
      (c'', rs + [r])
  }

  lemma {:induction false} FinishedPrefix(txns: seq<Txn>, c: Conn, k: Check)
    requires forall i :: 0 <= i < |txns| ==> Finished(txns[i])
    ensures FinishAll(txns, c, k).0 == c
    ensures forall i :: 0 <= i < |txns| ==> FinishAll(txns, c, k).1[i] == Resolved(txns[i])
  {
    if txns != [] { FinishedPrefix(txns[..|txns| - 1], c, k); }
  }

  /** Replacing the one call in progress by an equivalent rest leaves the whole rest alone. */
  lemma {:induction false} SameRest(a: seq<Txn>, b: seq<Txn>, i: nat, c: Conn, d: Conn, k: Check)
    requires |a| == |b| && i < |a|
    requires forall j :: 0 <= j < i ==> Finished(a[j])
    requires b == a[i := b[i]]
    requires Finish(a[i], c, k) == Finish(b[i], d, k)
    ensures FinishAll(a, c, k) == FinishAll(b, d, k)
  {
    hide Finish;
    var n := |a| - 1;
    if i < n {
      assert b[..n] == a[..n][i := b[..n][i]];
      SameRest(a[..n], b[..n], i, c, d, k);
    } else {
      assert a[..n] == b[..n];
      FinishedPrefix(a[..n], c, k);
      FinishedPrefix(b[..n], d, k);
      assert FinishAll(a[..n], c, k).1 == FinishAll(b[..n], d, k).1;
    }
  }

  lemma ThreadStepFinishes(t: Txn, c: Conn, k: Check)
    requires t.phase.Running? && ThreadInv(t.phase.thread)
    ensures var (n, c') := ThreadStep(t.phase.thread, c, k);
            Finish(t, c, k) ==
            Finish(t.(phase := if n.Goes? then Running(n.thread) else Done(n.resolved, false)), c', k)
  {
    var th := t.phase.thread;
    match th.cur
    case Nested(child, onOk, onErr) =>
      var pending := th.pending + [Pending(th.depth, onOk, onErr)];
      assert pending[..|pending| - 1] == th.pending;
      var c0 := Exec(c, Savepoint(SavepointName(th.depth)), k).0;
      var (c1, returned) := Callback(child, c0, th.depth + 1, k);
      assert NestedCall(child, c, th.depth, k) == EndNested(c1, returned, th.depth, k);
      var (c2, ok) := NestedCall(child, c, th.depth, k);
      var (c3, returned3) := Callback(if ok then onOk else onErr, c2, th.depth, k);
      assert Resume(pending, c1, returned, k) == Resume(th.pending, c3, returned3, k);
      assert Callback(th.cur, c, th.depth, k) == (c3, returned3);
    case _ =>
  }

  lemma StepKeepsRest(w: World, s: Step, k: Check)
    requires ChainInv(w) && Enabled(w, s) && !s.Call?
    ensures FinishAll(Take(w, s, k).txns, Take(w, s, k).conn, k) == FinishAll(w.txns, w.conn, k)
    ensures Callbacks(Take(w, s, k).txns) == Callbacks(w.txns)
  {
    var v := Take(w, s, k);
    if s.Advance? { ThreadStepFinishes(w.txns[s.i], w.conn, k); }
    if s.Start? && s.i > 0 { assert Finished(w.txns[s.i - 1]); }
    SameRest(w.txns, v.txns, s.i, w.conn, v.conn, k);
  }

  lemma CallAppends(w: World, callback: Prog, k: Check)
    ensures var v := Take(w, Call(callback), k);
            FinishAll(v.txns, v.conn, k) ==
            var (c, rs) := FinishAll(w.txns, w.conn, k);
            var (c', r) := TopCall(callback, c, k);
            (c', rs + [r])
    ensures Callbacks(Take(w, Call(callback), k).txns) == Callbacks(w.txns) + [callback]
  {
    var v := Take(w, Call(callback), k);
    assert v.txns[..|w.txns|] == w.txns;
  }

  /** In every world any interleaving reaches, letting the calls made so far run to
      their ends gives the connection, its whole log, and the outcomes of the serial
      run of their callbacks in call order. */
  lemma {:induction false} RestIsSerial(db: Db, trace: seq<Step>, w: World, k: Check)
    requires Reaches(db, trace, w, k)
    ensures ChainInv(w)
    ensures FinishAll(w.txns, w.conn, k) == Serial(Callbacks(w.txns), Fresh(db), k)
    decreases |trace|
  {
    if trace != [] {
      var before, s := trace[..|trace| - 1], trace[|trace| - 1];
      var v :| Reaches(db, before, v, k) && StepTo(v, s, w, k);
      RestIsSerial(db, before, v, k);
      StepStaysSerial(v, s, Fresh(db), k);
    }
  }

  lemma SerialAppends(cbs: seq<Prog>, callback: Prog, c: Conn, k: Check)
    ensures Serial(cbs + [callback], c, k) ==
            var (d, rs) := Serial(cbs, c, k);
            var (d', r) := TopCall(callback, d, k);
            (d', rs + [r])
  {
    assert (cbs + [callback])[..|cbs|] == cbs;
  }

  lemma StepStaysSerial(v: World, s: Step, c: Conn, k: Check)
    requires ChainInv(v) && Enabled(v, s)
    requires FinishAll(v.txns, v.conn, k) == Serial(Callbacks(v.txns), c, k)
    ensures var w := Take(v, s, k);
            ChainInv(w) && FinishAll(w.txns, w.conn, k) == Serial(Callbacks(w.txns), c, k)
  {
    hide *;
    ChainKept(v, s, k);
    if s.Call? {
      CallAppends(v, s.callback, k);
      SerialAppends(Callbacks(v.txns), s.callback, c, k);
    } else {
      StepKeepsRest(v, s, k);
    }
  }

  predicate Quiescent(w: World) {
    forall i :: 0 <= i < |w.txns| ==> Finished(w.txns[i])
  }

  /** Every interleaving of concurrently issued calls that has settled is the serial
      run in call order: same database, same log, same outcome of each call. */
  lemma SerialEquivalence(db: Db, trace: seq<Step>, w: World, k: Check)
    requires Reaches(db, trace, w, k) && Quiescent(w)
    ensures w.conn == Serial(Callbacks(w.txns), Fresh(db), k).0
    ensures forall i :: 0 <= i < |w.txns| ==>
              Resolved(w.txns[i]) == Serial(Callbacks(w.txns), Fresh(db), k).1[i]
  {
    RestIsSerial(db, trace, w, k);
    FinishedPrefix(w.txns, w.conn, k);
  }

  /* -------------------------------------------- the serial run is atomic */

  function AtomicRun(cbs: seq<Prog>, db: Db, k: Check): (r: (Db, seq<bool>))
    ensures |r.1| == |cbs|
  {
    if cbs == [] then (db, [])
    else
      var (d, rs) := AtomicRun(cbs[..|cbs| - 1], db, k);
      var (d', r) := Atomically(cbs[|cbs| - 1], d, k);
      (d', rs + [r])
  }

  /** No callback leaves a write behind after an automatic rollback. */
  ghost predicate NoStrays(cbs: seq<Prog>) {
    forall i :: 0 <= i < |cbs| ==> !AbortStrays(cbs[i])
  }

  lemma {:induction false} SerialIsAtomic(cbs: seq<Prog>, c: Conn, k: Check)
    requires NoStrays(cbs) && c.stack == []
    ensures var (c', rs) := Serial(cbs, c, k);
            (c'.db, rs) == AtomicRun(cbs, c.db, k) && c'.stack == []
  {
    if cbs != [] {
      SerialIsAtomic(cbs[..|cbs| - 1], c, k);
      TopAtomic(cbs[|cbs| - 1], Serial(cbs[..|cbs| - 1], c, k).0, k);
    }
  }

  /** The database at the end of any interleaving is the fold of the callbacks'
      meanings in call order, the rejected ones contributing nothing. */
  lemma InterleavingIsAtomic(db: Db, trace: seq<Step>, w: World, k: Check)
    requires Reaches(db, trace, w, k) && Quiescent(w)
    requires NoStrays(Callbacks(w.txns))
    ensures w.conn.db == AtomicRun(Callbacks(w.txns), db, k).0 && w.conn.stack == []
    ensures forall i :: 0 <= i < |w.txns| ==>
              Resolved(w.txns[i]) == AtomicRun(Callbacks(w.txns), db, k).1[i]
  {
    SerialEquivalence(db, trace, w, k);
    SerialIsAtomic(Callbacks(w.txns), Fresh(db), k);
  }

  /* ------------------------------------------------- blocks never overlap */

  ghost predicate Blocks(log: seq<Command>, n: nat)
    decreases n
  {
    if n == 0 then log == []
    else exists m :: 0 <= m <= |log| && Blocks(log[..m], n - 1) && IsBlock(log[m..])
  }

  /** However it ends, a call leaves no transaction open. */
  lemma EndTopIdle(c: Conn, returned: bool, k: Check)
    ensures EndTop(c, returned, k).0.stack == []
  {}

  lemma {:induction false} SerialIdle(cbs: seq<Prog>, db: Db, k: Check)
    ensures Serial(cbs, Fresh(db), k).0.stack == []
  {
    if cbs != [] {
      var c := Serial(cbs[..|cbs| - 1], Fresh(db), k).0;
      SerialIdle(cbs[..|cbs| - 1], db, k);
      var (c1, returned) := Callback(cbs[|cbs| - 1], Exec(c, Begin, k).0, 1, k);
      EndTopIdle(c1, returned, k);
    }
  }

  lemma {:induction false} SerialBlocks(cbs: seq<Prog>, db: Db, k: Check)
    ensures Blocks(Serial(cbs, Fresh(db), k).0.log, |cbs|)
  {
    hide Callback, TopCall, IsBlock;
    if cbs != [] {
      var n := |cbs| - 1;
      SerialBlocks(cbs[..n], db, k);
      SerialIdle(cbs[..n], db, k);
      var c := Serial(cbs[..n], Fresh(db), k).0;
      TopBlock(cbs[n], c, k);
      assert TopCall(cbs[n], c, k).0.log[..|c.log|] == c.log;
    }
  }

  lemma {:induction false} ResumeExtends(pending: seq<Pending>, c: Conn, returned: bool, k: Check)
    ensures Extends(c, Resume(pending, c, returned, k).0)
    decreases |pending|
  {
    hide EndNested, Callback, OnlySavepoints;
    if pending != [] {
      var p := pending[|pending| - 1];
      var (c1, ok) := EndNested(c, returned, p.at, k);
      EndNestedAdds(c, returned, p.at, k);
      var next := if ok then p.onOk else p.onErr;
      CallbackAdds(next, c1, p.at, k);
      var (c2, returned2) := Callback(next, c1, p.at, k);
      ResumeExtends(pending[..|pending| - 1], c2, returned2, k);
    }
  }

  lemma TopCallExtends(p: Prog, c: Conn, k: Check)
    ensures Extends(c, TopCall(p, c, k).0)
  {
    CallbackAdds(p, Exec(c, Begin, k).0, 1, k);
  }

  lemma {:induction false} FinishAllExtends(txns: seq<Txn>, c: Conn, k: Check)
    ensures Extends(c, FinishAll(txns, c, k).0)
  {
    if txns != [] {
      var (c1, _) := FinishAll(txns[..|txns| - 1], c, k);
      FinishAllExtends(txns[..|txns| - 1], c, k);
      var t := txns[|txns| - 1];
      match t.phase
      case Queued => TopCallExtends(t.callback, c1, k);
      case Running(th) =>
        CallbackAdds(th.cur, c1, th.depth, k);
        var (c2, returned) := Callback(th.cur, c1, th.depth, k);
        ResumeExtends(th.pending, c2, returned, k);
      case Done(_, _) =>
    }
  }

  /** At every moment the log is a prefix of BEGIN..COMMIT/ROLLBACK blocks, one for
      each call and in call order, so no two transactions ever overlap. */
  lemma LogIsBlocks(db: Db, trace: seq<Step>, w: World, k: Check)
    requires Reaches(db, trace, w, k)
    ensures var all := Serial(Callbacks(w.txns), Fresh(db), k).0.log;
            |w.conn.log| <= |all| && all[..|w.conn.log|] == w.conn.log && Blocks(all, |w.txns|)
  {
    RestIsSerial(db, trace, w, k);
    FinishAllExtends(w.txns, w.conn, k);
    SerialBlocks(Callbacks(w.txns), db, k);
  }

  /* ------------------------------------------- the chain cannot get stuck */

  function Size(p: Prog): nat {
    match p
    case Return => 1
    case Throw => 1
    case Write(_, next, failed) => 1 + Size(next) + Size(failed)
    case Branch(_, yes, no) => 1 + Size(yes) + Size(no)
    case Abort(next) => 1 + Size(next)
    case Nested(child, onOk, onErr) => 1 + Size(child) + Size(onOk) + Size(onErr)
  }

  function PendingSize(pending: seq<Pending>): nat {
    if pending == [] then 0
    else PendingSize(pending[..|pending| - 1]) + Size(pending[|pending| - 1].onOk) + Size(pending[|pending| - 1].onErr)
  }

  function TxnWork(t: Txn): nat {
    match t.phase
    case Queued => Size(t.callback) + 2
    case Running(th) => Size(th.cur) + PendingSize(th.pending) + 1
    case Done(_, forwarded) => if forwarded then 0 else 1
  }

  function Work(txns: seq<Txn>): nat {
    if txns == [] then 0 else Work(txns[..|txns| - 1]) + TxnWork(txns[|txns| - 1])
  }

  lemma {:induction false} WorkAt(a: seq<Txn>, i: nat, t: Txn)
    requires i < |a|
    ensures Work(a[i := t]) + TxnWork(a[i]) == Work(a) + TxnWork(t)
  {
    var n := |a| - 1;
    if i < n {
      WorkAt(a[..n], i, t);
      assert a[i := t][..n] == a[..n][i := t];
    } else {
      assert a[i := t][..n] == a[..n];
    }
  }

  lemma ThreadStepWorks(t: Txn, c: Conn, k: Check)
    requires t.phase.Running?
    ensures var n := ThreadStep(t.phase.thread, c, k).0;
            TxnWork(t.(phase := if n.Goes? then Running(n.thread) else Done(n.resolved, false))) < TxnWork(t)
  {
    var th := t.phase.thread;
    match th.cur
    case Nested(child, onOk, onErr) =>
      var pending := th.pending + [Pending(th.depth, onOk, onErr)];
      assert pending[..|th.pending|] == th.pending;
    case _ =>
  }

  /** No call ever waits for ever: while one is unsettled some step other than a new
      call is possible, and each such step leaves less to do. */
  lemma NoDeadlock(db: Db, trace: seq<Step>, w: World, k: Check) returns (s: Step)
    requires Reaches(db, trace, w, k) && !Quiescent(w)
    ensures !s.Call? && Enabled(w, s) && Work(Take(w, s, k).txns) < Work(w.txns)
  {
    RestIsSerial(db, trace, w, k);
    s := FirstStep(w);
    StepWorks(w, s, k);
  }

  lemma FirstStep(w: World) returns (s: Step)
    requires ChainInv(w) && !Quiescent(w)
    ensures !s.Call? && Enabled(w, s)
  {
    var i: nat :| i < |w.txns| && !Finished(w.txns[i]);
    while i > 0 && !Finished(w.txns[i - 1])
      invariant i < |w.txns| && !Finished(w.txns[i])
    {
      i := i - 1;
    }
    assert i > 0 ==> Finished(w.txns[i - 1]);
    s := match w.txns[i].phase
         case Queued => Start(i)
         case Running(_) => Advance(i)
         case Done(_, _) => Forward(i);
  }

  lemma StepWorks(w: World, s: Step, k: Check)
    requires Enabled(w, s) && !s.Call?
    ensures Work(Take(w, s, k).txns) < Work(w.txns)
  {
    var v := Take(w, s, k);
    WorkAt(w.txns, s.i, v.txns[s.i]);
    if s.Advance? { ThreadStepWorks(w.txns[s.i], w.conn, k); }
  }
}
