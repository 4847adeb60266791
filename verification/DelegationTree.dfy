/** The referral walk on a well-formed delegation tree finds the parent's view of every
    zone: its NS set, glue and DS set, the parent's servers and the cuts above it, or that
    it is not a zone of its own. */
module DelegationTree {
  import opened Text
  import opened Delegation
  import opened DelegationLaws
  import opened DelegationReading
  import opened Options
  import opened Selection

  /** Zone cuts with the NS set, glue and DS set their parent holds; each server speaks for
      one zone, and only the live ones answer. */
  datatype Tree = Tree(
    cuts: set<string>,
    nameservers: map<string, set<string>>,
    glue: map<string, map<string, seq<string>>>,
    ds: map<string, seq<Ds>>,
    zoneOf: map<string, string>,
    alive: set<string>)

  /** A cut on the way to the target, under `z`. */
  predicate Candidate(tree: Tree, z: string, target: string, c: string) {
    c in tree.cuts && IsSuffix(target, c) && Below(z, c)
  }

  ghost predicate Nearest(tree: Tree, z: string, target: string, c: string) {
    Candidate(tree, z, target, c) && forall d :: Candidate(tree, z, target, d) ==> |c| <= |d|
  }

  ghost predicate Serves(tree: Tree, z: string, servers: seq<string>, attempts: nat) {
    (forall s :: s in servers ==> s in tree.zoneOf && tree.zoneOf[s] == z) &&
    exists i :: 0 <= i < |servers| && i < attempts && servers[i] in tree.alive
  }

  /** A referral to the cut `c` with exactly its NS set. */
  ghost predicate Refers(tree: Tree, m: Message, target: string, c: string) {
    m.rcode != 3 && !Authoritative(m, target) && (exists r :: r in m.authority && r.kind == "NS") &&
    (forall r :: r in m.authority && r.kind == "NS" ==> Lower(r.name) == c) &&
    c in tree.nameservers &&
    forall n :: n in tree.nameservers[c] <==> exists r :: r in m.authority && NsAt(c)(r) && NameOf()(r) == n
  }

  /** The rest of the parent's view: the glue, and the DS set, in the referral or on request. */
  ghost predicate Details(tree: Tree, setup: Setup, m: Message, server: string, c: string) {
    c in tree.glue && c in tree.ds && GlueReads(m, tree.glue[c]) &&
    if exists r :: r in m.authority && DsAt(c)(r) then IsSelection(m.authority, DsAt(c), DsOf(), tree.ds[c])
    else DsReads(setup, c, server, tree.ds[c])
  }

  ghost predicate Denies(m: Message, target: string) {
    m.rcode == 3 || NoReferral(m, target)
  }

  /** A server of zone `z` refers to the nearest cut below it, with addresses that lead to
      servers of that cut, and denies what no cut below it covers. */
  ghost predicate Speaks(tree: Tree, setup: Setup, target: string, z: string, server: string, m: Message) {
    (forall c :: Nearest(tree, z, target, c) ==>
                   Refers(tree, m, target, c) && (c == target ==> Details(tree, setup, m, server, c)) &&
                   (c != target ==> Leads(tree, setup, m, c))) &&
    ((forall c :: !Candidate(tree, z, target, c)) ==> Denies(m, target))
  }

  /** Glue, or else resolving the nameservers' names, leads to servers of the cut. */
  ghost predicate Leads(tree: Tree, setup: Setup, m: Message, c: string) {
    forall servers :: HopOf(setup, m, c, servers) ==> Serves(tree, c, servers, Attempts(setup))
  }

  ghost predicate WellFormed(tree: Tree, setup: Setup, target: string) {
    "." in tree.cuts &&
    (forall c :: c in tree.cuts ==> WireName(c)) &&
    Serves(tree, ".", setup.rootServers, Attempts(setup)) &&
    forall s :: s in tree.zoneOf ==> Behaves(tree, setup, target, s)
  }

  ghost predicate Behaves(tree: Tree, setup: Setup, target: string, s: string)
    requires s in tree.zoneOf
  {
    var reply := setup.query(target, "NS", s);
    if s in tree.alive then
      reply.Answered? && (tree.zoneOf[s] != target ==> Speaks(tree, setup, target, tree.zoneOf[s], s, reply.message))
    else reply.Failed?
  }

  predicate Increasing(path: seq<string>) {
    forall i, j :: 0 <= i < j < |path| ==> |path[i]| < |path[j]|
  }

  /** The path is the cuts properly above the target, from the root down. */
  ghost predicate CutsAbove(tree: Tree, target: string, path: seq<string>) {
    path != [] && path[0] == "." && Increasing(path) &&
    forall c :: c in path <==> c in tree.cuts && IsSuffix(target, c) && c != target
  }

  /** Where the walk stands: at a cut, with that cut's servers, below all shorter ones. */
  ghost predicate At(tree: Tree, setup: Setup, target: string, level: Level) {
    level.current in tree.cuts && IsSuffix(target, level.current) && level.current != target &&
    Serves(tree, level.current, level.servers, Attempts(setup)) &&
    level.path != [] && level.path[0] == "." && Increasing(level.path) &&
    level.path[|level.path| - 1] == level.current &&
    forall c :: c in level.path <==> c in tree.cuts && IsSuffix(target, c) && |c| <= |level.current|
  }

  lemma {:induction false} AskFinds(setup: Setup, target: string, servers: seq<string>, attempts: nat, i: nat, j: nat,
                                    error: string)
    requires i <= j < |servers| && j < attempts && setup.query(target, "NS", servers[j]).Answered?
    ensures var a := Ask(setup, target, servers, attempts, i, error);
            a.reply.Some? && a.from in servers && setup.query(target, "NS", a.from) == Answered(a.reply.value)
    decreases |servers| - i
  {
    if setup.query(target, "NS", servers[i]).Failed? {
      AskFinds(setup, target, servers, attempts, i + 1, j,
               servers[i] + ": " + setup.query(target, "NS", servers[i]).reason);
    }
  }

  /** Some live server of the zone answers, and answers as it should. */
  lemma LevelAnswers(tree: Tree, setup: Setup, target: string, level: Level)
    requires WellFormed(tree, setup, target) && At(tree, setup, target, level)
    ensures var a := Ask(setup, target, level.servers, Attempts(setup), 0, level.lastError);
            a.reply.Some? && Speaks(tree, setup, target, level.current, a.from, a.reply.value) &&
            a.from in level.servers && a.from in tree.alive
  {
    hide Speaks, IsSuffix, Increasing, Ask, WireName, Attempts;
    var servers, attempts := level.servers, Attempts(setup);
    var j :| 0 <= j < |servers| && j < attempts && servers[j] in tree.alive;
    assert servers[j] in servers;
    assert Behaves(tree, setup, target, servers[j]);
    AskFinds(setup, target, servers, attempts, 0, j, level.lastError);
    var from := Ask(setup, target, servers, attempts, 0, level.lastError).from;
    assert Behaves(tree, setup, target, from);
  }

  /** Among the cuts below there is a nearest one. */
  lemma {:induction false} NearestExists(tree: Tree, z: string, target: string, c: string) returns (n: string)
    requires Candidate(tree, z, target, c)
    ensures Nearest(tree, z, target, n)
    decreases |c|
  {
    hide Candidate;
    if d :| Candidate(tree, z, target, d) && |d| < |c| {
      n := NearestExists(tree, z, target, d);
    } else {
      n := c;
    }
  }

  /** A cut on the way that is not above where the walk stands is below it. */
  lemma DeeperIsCandidate(tree: Tree, setup: Setup, target: string, level: Level, d: string)
    requires WellFormed(tree, setup, target) && At(tree, setup, target, level)
    requires d in tree.cuts && IsSuffix(target, d) && |d| > |level.current|
    ensures Candidate(tree, level.current, target, d)
  {
    hide IsSuffix, Serves, Behaves;
    assert WireName(level.current) && WireName(d);
    LongerIsBelow(target, level.current, d);
  }

  lemma CutsAboveHere(tree: Tree, setup: Setup, target: string, level: Level)
    requires WellFormed(tree, setup, target) && At(tree, setup, target, level) && WireName(target)
    requires forall d :: d != target && |d| < |target| ==> !Candidate(tree, level.current, target, d)
    ensures CutsAbove(tree, target, level.path)
  {
    hide Candidate, Serves, IsSuffix, WireName, Behaves;
    forall c ensures c in level.path <==> c in tree.cuts && IsSuffix(target, c) && c != target {
      if c in tree.cuts && IsSuffix(target, c) && c != target {
        SuffixLength(target, c);
        if |c| > |level.current| { DeeperIsCandidate(tree, setup, target, level, c); }
      }
      if c == target && IsSuffix(target, level.current) { SuffixLength(target, level.current); }
    }
  }

  /** Servers of the parent, at most as many as are asked, one of them live. */
  ghost predicate Parents(tree: Tree, setup: Setup, parent: string, servers: seq<string>) {
    |servers| <= Attempts(setup) && (forall s :: s in servers ==> s in tree.zoneOf && tree.zoneOf[s] == parent) &&
    exists s :: s in servers && s in tree.alive
  }

  /** The parent's view of the target. */
  ghost predicate Right(tree: Tree, setup: Setup, target: string, o: Outcome) {
    o.zone == target && CutsAbove(tree, target, o.path) &&
    Parents(tree, setup, o.path[|o.path| - 1], o.parentServers) &&
    if target in tree.cuts then
      o.status == Delegated && o.error == None &&
      target in tree.nameservers && target in tree.glue && target in tree.ds &&
      (forall n :: n in o.nameservers <==> n in tree.nameservers[target]) &&
      (forall i, j :: 0 <= i < j < |o.nameservers| ==> o.nameservers[i] != o.nameservers[j]) &&
      o.glue == tree.glue[target] && o.ds == tree.ds[target]
    else o.status == NotDelegated && o.nameservers == [] && o.glue == map[] && o.ds == [] && |o.parentServers| == 1
  }

  lemma RefersTo(tree: Tree, m: Message, target: string, c: string)
    requires Refers(tree, m, target, c)
    ensures ReferralTo(m, target, c)
  {
    hide NsRecords, Lower, Authoritative;
    var j := NsRecordsAre(m.authority);
    assert m.authority[j] in m.authority;
  }

  lemma DescendAt(tree: Tree, setup: Setup, target: string, level: Level, c: string, next: Level)
    requires WellFormed(tree, setup, target) && At(tree, setup, target, level)
    requires Nearest(tree, level.current, target, c) && c != target
    requires next.current == c && next.path == level.path + [c] && Serves(tree, c, next.servers, Attempts(setup))
    ensures At(tree, setup, target, next) && Rank(level.current) < Rank(c)
  {
    hide Serves, IsSuffix, WireName, Rank, Below, Behaves;
    var path := level.path;
    assert Candidate(tree, level.current, target, c);
    BelowIsLonger(level.current, c);
    BelowRank(level.current, c);
    forall x ensures x in next.path <==> x in tree.cuts && IsSuffix(target, x) && |x| <= |c| {
      if x in tree.cuts && IsSuffix(target, x) && |level.current| < |x| <= |c| {
        DeeperIsCandidate(tree, setup, target, level, x);
        SameLength(target, x, c);
      }
    }
    forall i, j | 0 <= i < j < |next.path| ensures |next.path[i]| < |next.path[j]| {
      if j == |path| { assert path[i] in path; }
    }
  }

  lemma SameGlue(m: Message, a: map<string, seq<string>>, b: map<string, seq<string>>)
    requires GlueReads(m, a) && GlueReads(m, b)
    ensures a == b
  {
    hide IsSelection;
    forall n ensures Under(a, n) == Under(b, n) {
      SelectionUnique(m.additional, GlueAt(n), DataOf(), Under(a, n), Under(b, n));
    }
    forall n ensures n in a <==> n in b { assert Under(a, n) == Under(b, n); }
    forall n | n in a ensures a[n] == b[n] { assert Under(a, n) == Under(b, n); }
  }

  lemma SameDs(setup: Setup, target: string, server: string, a: seq<Ds>, b: seq<Ds>)
    requires DsReads(setup, target, server, a) && DsReads(setup, target, server, b)
    ensures a == b
  {
    hide IsSelection;
    match setup.query(target, "DS", server)
    case Answered(d) => SelectionUnique(d.answer, DsAt(target), DsOf(), a, b);
    case Failed(_) =>
  }

  lemma ParentsHere(tree: Tree, setup: Setup, target: string, level: Level)
    requires At(tree, setup, target, level)
    ensures var n := if |level.servers| < Attempts(setup) then |level.servers| else Attempts(setup);
            Parents(tree, setup, level.current, level.servers[..n])
  {
    hide IsSuffix, Increasing, Attempts;
    var n := if |level.servers| < Attempts(setup) then |level.servers| else Attempts(setup);
    var i :| 0 <= i < |level.servers| && i < Attempts(setup) && level.servers[i] in tree.alive;
    assert level.servers[..n][i] in level.servers[..n];
  }

  lemma DelegatedHere(tree: Tree, setup: Setup, target: string, level: Level, m: Message, from: string, error: string)
    requires WellFormed(tree, setup, target) && At(tree, setup, target, level) && WireName(target)
    requires Nearest(tree, level.current, target, target) && Refers(tree, m, target, target)
    requires Details(tree, setup, m, from, target)
    ensures var v := Read(setup, target, Attempts(setup), level, m, from, error);
            v.Done? && Right(tree, setup, target, v.outcome)
  {
    hide At, WellFormed, Below, IsSuffix, CutsAbove, WireName, Read, GlueReads, DsReads, IsSelection, Lower, Parents,
         Attempts, Authoritative, ReferralTo;
    CutsAboveHere(tree, setup, target, level);
    RefersTo(tree, m, target, target);
    ReadsCut(setup, target, Attempts(setup), level, m, from, error);
    ParentsHere(tree, setup, target, level);
    PathHere(tree, setup, target, level);
    var o := Read(setup, target, Attempts(setup), level, m, from, error).outcome;
    SameGlue(m, o.glue, tree.glue[target]);
    if exists r :: r in m.authority && DsAt(target)(r) {
      SelectionUnique(m.authority, DsAt(target), DsOf(), o.ds, tree.ds[target]);
    } else {
      SameDs(setup, target, from, o.ds, tree.ds[target]);
    }
  }

  lemma PathHere(tree: Tree, setup: Setup, target: string, level: Level)
    requires At(tree, setup, target, level)
    ensures level.path != [] && level.path[|level.path| - 1] == level.current
  {}

  lemma DeniedHere(tree: Tree, setup: Setup, target: string, level: Level, m: Message, from: string, error: string)
    requires WellFormed(tree, setup, target) && At(tree, setup, target, level) && WireName(target)
    requires forall c :: !Candidate(tree, level.current, target, c)
    requires Denies(m, target) && from in level.servers && from in tree.alive
    ensures var v := Read(setup, target, Attempts(setup), level, m, from, error);
            v.Done? && Right(tree, setup, target, v.outcome)
  {
    hide WellFormed, CutsAbove, WireName, Increasing, Read, Authoritative, NoReferral, Attempts;
    CutsAboveHere(tree, setup, target, level);
    assert target in tree.cuts ==> Candidate(tree, level.current, target, target);
    if m.rcode == 3 { ReadsNoName(setup, target, Attempts(setup), level, m, from, error); }
    else { ReadsNothing(setup, target, Attempts(setup), level, m, from, error); }
    assert from in [from];
  }

  /** One round: the parent's view, or the next cut down. */
  lemma Round(tree: Tree, setup: Setup, target: string, level: Level)
    requires WellFormed(tree, setup, target) && At(tree, setup, target, level) && WireName(target)
    ensures var v := Visit(setup, target, Attempts(setup), level);
            match v
            case Done(o) => Right(tree, setup, target, o)
            case Descend(next) => At(tree, setup, target, next) && Rank(level.current) < Rank(next.current)
  {
    hide At, WellFormed, Read, Right, Refers, Denies, Ask, WireName, Candidate, Serves, OffPath, Rank, Details, HopOf,
         ReferralTo, Attempts;
    LevelAnswers(tree, setup, target, level);
    var attempts := Attempts(setup);
    var a := Ask(setup, target, level.servers, attempts, 0, level.lastError);
    var m := a.reply.value;
    var v := Read(setup, target, attempts, level, m, a.from, a.lastError);
    if c :| Candidate(tree, level.current, target, c) {
      var n := NearestExists(tree, level.current, target, c);
      if n == target {
        DelegatedHere(tree, setup, target, level, m, a.from, a.lastError);
      } else {
        NotOffPath(tree, setup, target, level, n);
        RefersTo(tree, m, target, n);
        var servers := ReadsReferral(setup, target, attempts, level, m, a.from, a.lastError, n);
        ServesSome(tree, n, servers, attempts);
        DescendAt(tree, setup, target, level, n, v.level);
      }
    } else {
      DeniedHere(tree, setup, target, level, m, a.from, a.lastError);
    }
  }

  lemma ServesSome(tree: Tree, z: string, servers: seq<string>, attempts: nat)
    requires Serves(tree, z, servers, attempts)
    ensures servers != []
  {}

  lemma NotOffPath(tree: Tree, setup: Setup, target: string, level: Level, c: string)
    requires WellFormed(tree, setup, target) && Candidate(tree, level.current, target, c)
    ensures IsSuffix(target, c) && |c| > |level.current|
  {
    hide IsSuffix, WireName, Serves, Behaves, Below;
    BelowIsLonger(level.current, c);
  }

  lemma {:induction false} WalkIsRight(tree: Tree, setup: Setup, target: string, level: Level, depth: nat)
    requires WellFormed(tree, setup, target) && At(tree, setup, target, level) && WireName(target)
    requires depth > 0 && depth >= Rank(target) - Rank(level.current)
    ensures Right(tree, setup, target, Walk(setup, target, Attempts(setup), level, depth))
    decreases depth
  {
    hide WellFormed, Right, Visit, WireName, Rank, Attempts;
    Round(tree, setup, target, level);
    if Visit(setup, target, Attempts(setup), level).Descend? {
      var next := Visit(setup, target, Attempts(setup), level).level;
      AboveTarget(tree, setup, target, next);
      WalkIsRight(tree, setup, target, next, depth - 1);
    }
  }

  lemma AboveTarget(tree: Tree, setup: Setup, target: string, level: Level)
    requires WellFormed(tree, setup, target) && At(tree, setup, target, level) && WireName(target)
    ensures Rank(level.current) < Rank(target)
  {
    hide IsSuffix, Serves, Behaves, Increasing, Rank, WireName;
    assert Below(level.current, target);
    BelowRank(level.current, target);
  }

  lemma StartsAtRoot(tree: Tree, setup: Setup, target: string)
    requires WellFormed(tree, setup, target) && target != "."
    ensures At(tree, setup, target, Level(setup.rootServers, ".", ["."], ""))
  {
    hide Serves, Behaves;
  }

  /** Main theorem: with as many levels allowed as the target has labels, the walk reports
      the parent's view of a cut and the cuts above it, and `not-delegated` for anything else. */
  lemma FindsTheParentsView(tree: Tree, zone: string, setup: Setup)
    requires WellFormed(tree, setup, TargetOf(zone)) && TargetOf(zone) != "."
    requires MaxDepth(setup, TargetOf(zone)) >= |Split(TargetOf(zone), '.')| - 1
    ensures Right(tree, setup, TargetOf(zone), Located(zone, setup))
  {
    hide WellFormed, Right, TargetOf, MaxDepth, At, Walk, Attempts, Rank;
    var target := TargetOf(zone);
    TargetIsWire(zone);
    SplitCount(target);
    WireRank(target);
    RankIsDots(target);
    StartsAtRoot(tree, setup, target);
    WalkIsRight(tree, setup, target, Level(setup.rootServers, ".", ["."], ""), MaxDepth(setup, target));
  }
}
