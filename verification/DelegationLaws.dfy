/** What the referral walk guarantees against any replies: the shape of its path, and how
    far it can be led astray. */
module DelegationLaws {
  import opened Options
  import opened Text
  import opened Delegation

  /* --------------------------------------------------------- suffixes */

  /** A name as the wire decoder hands it out: the root, or labels with a trailing dot. */
  predicate WireName(n: string) {
    n == "." || (|n| >= 2 && n[|n| - 1] == '.')
  }

  /** `c` is a name strictly under `z`. */
  predicate Below(z: string, c: string) {
    c != z && IsSuffix(c, z)
  }

  /** A name is under another exactly when it is the root, or its labels are the last labels. */
  lemma SuffixIff(zone: string, parent: string)
    ensures IsSuffix(zone, parent) <==>
              parent == "." || exists i :: 0 <= i < |Split(zone, '.')| && Split(zone, '.')[i..] == Split(parent, '.')
  {
    hide Split, Join, EndsWith;
    var labels := Split(zone, '.');
    assert labels[0..] == labels;
    if EndsWith(zone, "." + parent) {
      var i := SuffixIsLabels(zone, parent);
      SplitFree(zone, '.');
      assert forall j :: 0 <= j < |labels[i..]| ==> labels[i..][j] == labels[i + j];
      SplitJoin(labels[i..], '.');
    }
    if i :| 0 <= i < |labels| && labels[i..] == Split(parent, '.') {
      JoinSplit(parent, '.');
      JoinSplit(zone, '.');
      if i > 0 { LabelsAreSuffix(zone, i); }
    }
  }

  lemma LongerIsBelow(target: string, a: string, b: string)
    requires IsSuffix(target, a) && IsSuffix(target, b) && b != "." && (a == "." || |a| < |b|)
    ensures Below(a, b)
  {
    if a != "." {
      var p, q := "." + a, "." + b;
      assert target[|target| - |p|..] == p;
      if b != target {
        assert target[|target| - |b|..] == q[1..] == b;
        assert b[|b| - |p|..] == target[|target| - |p|..];
      }
    }
  }

  lemma BelowIsLonger(z: string, c: string)
    requires Below(z, c) && WireName(c)
    ensures |c| > |z|
  {}

  lemma SameLength(target: string, a: string, b: string)
    requires IsSuffix(target, a) && IsSuffix(target, b) && WireName(a) && WireName(b) && |a| == |b|
    ensures a == b
  {
    if a != "." && b != "." && a != target && b != target {
      assert ("." + a)[1..] == a && ("." + b)[1..] == b;
    }
  }

  lemma SuffixLength(target: string, a: string)
    requires IsSuffix(target, a) && WireName(target) && a != target
    ensures |a| < |target|
  {}

  function Rank(n: string): nat {
    if n == "." then 0 else Dots(n)
  }

  lemma WireRank(n: string)
    requires WireName(n) && n != "."
    ensures Rank(n) >= 1
  {
    var last := |n| - 1;
    assert n == n[..last] + ".";
    DotsConcat(n[..last], ".");
    assert Dots(".") == 1;
  }

  lemma BelowRank(z: string, c: string)
    requires Below(z, c) && WireName(z) && WireName(c)
    ensures Rank(z) < Rank(c)
  {
    if z == "." {
      WireRank(c);
    } else {
      var p := "." + z;
      assert c == c[..|c| - |p|] + p;
      DotsConcat(c[..|c| - |p|], p);
      DotsConcat(".", z);
      assert Dots(".") == 1;
      assert c != ".";
    }
  }

  lemma LowerWire(n: string)
    requires WireName(n)
    ensures WireName(Lower(n))
  {
    if n == "." { assert Lower(n) == "."; }
  }

  lemma TargetIsWire(zone: string)
    ensures WireName(TargetOf(zone))
  {
    hide EndsWith;
    var t := if EndsWith(zone, ".") then zone else zone + ".";
    EndsInDot(zone);
    if |t| == 1 { assert t == "."; }
    LowerWire(t);
  }

  lemma EndsInDot(zone: string)
    ensures EndsWith(zone, ".") ==> zone != "" && zone[|zone| - 1] == '.'
  {
    if EndsWith(zone, ".") { assert zone[|zone| - 1..][0] == '.'; }
  }

  /* ----------------------------------- the path, whatever the servers say */

  ghost predicate WireReplies(setup: Setup) {
    forall name, kind, server ::
      setup.query(name, kind, server).Answered? ==> WireAuthority(setup.query(name, kind, server).message)
  }

  predicate WireAuthority(m: Message) {
    forall r :: r in m.authority ==> WireName(r.name)
  }

  /** `k` times the root, then names under one another and above the target. */
  predicate DescentFrom(target: string, path: seq<string>, k: nat) {
    1 <= k <= |path| &&
    (forall i :: 0 <= i < k ==> path[i] == ".") &&
    (forall i :: k <= i < |path| ==> WireName(path[i]) && path[i] != "." && Below(path[i], target)) &&
    (forall i :: k < i < |path| ==> Below(path[i - 1], path[i]))
  }

  ghost predicate OnTheWay(target: string, level: Level, k: nat) {
    DescentFrom(target, level.path, k) && level.path[|level.path| - 1] == level.current
  }

  lemma {:induction false} AskIsQuery(setup: Setup, target: string, servers: seq<string>, attempts: nat, i: nat,
                                      error: string)
    ensures var a := Ask(setup, target, servers, attempts, i, error);
            a.reply.Some? ==> setup.query(target, "NS", a.from) == Answered(a.reply.value)
    decreases |servers| - i
  {
    if i < |servers| && i < attempts && setup.query(target, "NS", servers[i]).Failed? {
      AskIsQuery(setup, target, servers, attempts, i + 1,
                 servers[i] + ": " + setup.query(target, "NS", servers[i]).reason);
    }
  }

  /** The owner a level descends to. */
  lemma DescendsTo(setup: Setup, target: string, attempts: nat, level: Level)
    requires WireReplies(setup) && Visit(setup, target, attempts, level).Descend?
    ensures var next := Visit(setup, target, attempts, level).level;
            WireName(next.current) && next.path == level.path + [next.current] &&
            Below(next.current, target) && (|next.current| > |level.current| || level.current == ".")
  {
    hide Ask, NsNames, Distinct, Glue, NextServers, WireReplies, IsSuffix, WireName;
    AskIsQuery(setup, target, level.servers, attempts, 0, level.lastError);
    var asked := Ask(setup, target, level.servers, attempts, 0, level.lastError);
    var m := asked.reply.value;
    WireReplyAt(setup, target, asked.from);
    var r := NsRecords(m.authority)[0];
    assert r in NsRecords(m.authority);
    LowerWire(r.name);
  }

  lemma WireReplyAt(setup: Setup, target: string, server: string)
    requires WireReplies(setup) && setup.query(target, "NS", server).Answered?
    ensures WireAuthority(setup.query(target, "NS", server).message)
  {}

  lemma OneMore(target: string, path: seq<string>, k: nat, owner: string) returns (k': nat)
    requires DescentFrom(target, path, k) && WireName(owner) && Below(owner, target)
    requires |owner| > |path[|path| - 1]| || path[|path| - 1] == "."
    ensures DescentFrom(target, path + [owner], k')
  {
    var last := path[|path| - 1];
    if owner == "." {
      assert |path| > k ==> WireName(last) && last != ".";
      k' := k + 1;
    } else {
      hide WireName, IsSuffix;
      k' := k;
      var next := path + [owner];
      if |path| > k { LongerIsBelow(target, last, owner); }
      assert forall i :: 0 <= i < |path| ==> next[i] == path[i];
    }
  }

  lemma {:induction false} WalkPath(setup: Setup, target: string, attempts: nat, level: Level, depth: nat,
                                    k: nat) returns (k': nat)
    requires WireReplies(setup) && OnTheWay(target, level, k)
    ensures var path := Walk(setup, target, attempts, level, depth).path;
            DescentFrom(target, path, k') && |path| <= |level.path| + depth
    decreases depth
  {
    hide WireReplies, DescentFrom, Visit, WireName, IsSuffix, Below;
    k' := k;
    if depth > 0 {
      if Visit(setup, target, attempts, level).Descend? {
        var next := Visit(setup, target, attempts, level).level;
        DescendsTo(setup, target, attempts, level);
        var j := OneMore(target, level.path, k, next.current);
        k' := WalkPath(setup, target, attempts, next, depth - 1, j);
      } else {
        DoneKeepsPath(setup, target, attempts, level);
      }
    }
  }

  lemma DoneKeepsPath(setup: Setup, target: string, attempts: nat, level: Level)
    requires Visit(setup, target, attempts, level).Done?
    ensures Visit(setup, target, attempts, level).outcome.path == level.path
  {
    hide Ask, NsNames, NsRecords, Distinct, Glue, NextServers, IsSuffix, IsNs, DsRecords, Tried, ReadDs, Lower;
  }

  /** Against any servers at all: the path is one or more roots, then strictly longer proper
      suffixes of the target, each under the one before. */
  lemma PathDescends(zone: string, setup: Setup) returns (k: nat)
    requires WireReplies(setup)
    ensures DescentFrom(TargetOf(zone), Located(zone, setup).path, k)
    ensures forall i :: k < i < |Located(zone, setup).path| ==>
              |Located(zone, setup).path[i - 1]| < |Located(zone, setup).path[i]| < |TargetOf(zone)|
  {
    hide WireReplies, Walk, TargetOf;
    var target := TargetOf(zone);
    k := WalkPath(setup, target, Attempts(setup), Level(setup.rootServers, ".", ["."], ""), MaxDepth(setup, target), 1);
    var path := Located(zone, setup).path;
    TargetIsWire(zone);
    forall i | k < i < |path| ensures |path[i - 1]| < |path[i]| < |target| {
      hide IsSuffix;
      BelowIsLonger(path[i - 1], path[i]);
      BelowIsLonger(path[i], target);
    }
  }

  /* ------------------------------------------------------- running too deep */

  predicate ErrorText(e: string) {
    e == "" || ':' in e
  }

  lemma {:induction false} AskError(setup: Setup, target: string, servers: seq<string>, attempts: nat, i: nat,
                                    error: string)
    requires ErrorText(error)
    ensures ErrorText(Ask(setup, target, servers, attempts, i, error).lastError)
    decreases |servers| - i
  {
    if i < |servers| && i < attempts && setup.query(target, "NS", servers[i]).Failed? {
      var e := servers[i] + ": " + setup.query(target, "NS", servers[i]).reason;
      assert e[|servers[i]|] == ':';
      AskError(setup, target, servers, attempts, i + 1, e);
    }
  }

  lemma OtherErrors(from: string, a: string, b: string, target: string)
    requires WireName(target)
    ensures from + " returned " + a + " with no referral" != TOO_DEEP
    ensures from + " referred to " + b + ", which is not on the path to " + target != TOO_DEEP
    ensures "no address for the nameservers of " + b != TOO_DEEP && "no server answered" != TOO_DEEP
    ensures ':' !in TOO_DEEP
  {
    var x := from + " returned " + a + " with no referral";
    var y := from + " referred to " + b + ", which is not on the path to " + target;
    var z := "no address for the nameservers of " + b;
    assert x[|x| - 1] == 'l' && y[|y| - 1] == '.' && z[0] == 'n' && TOO_DEEP[|TOO_DEEP| - 1] == 'p' &&
      TOO_DEEP[0] == 'd';
  }

  lemma DoneErrors(setup: Setup, target: string, attempts: nat, level: Level)
    requires WireName(target) && ErrorText(level.lastError)
    ensures var v := Visit(setup, target, attempts, level);
            (v.Done? ==> v.outcome.error != Some(TOO_DEEP)) && (v.Descend? ==> ErrorText(v.level.lastError))
  {
    hide Ask, NsNames, NsRecords, Distinct, Glue, NextServers, IsSuffix, IsNs, DsRecords, Tried, ReadDs, Lower,
         WireName, ErrorText;
    AskError(setup, target, level.servers, attempts, 0, level.lastError);
    var asked := Ask(setup, target, level.servers, attempts, 0, level.lastError);
    ErrorIsNotTooDeep(asked.lastError);
    if asked.reply.Some? {
      var m := asked.reply.value;
      var r := NsRecords(m.authority);
      OtherErrors(asked.from, m.rcodeName, if r == [] then "" else Lower(r[0].name), target);
    } else {
      OtherErrors("", "", "", target);
    }
    hide TOO_DEEP;
  }

  lemma ErrorIsNotTooDeep(e: string)
    requires ErrorText(e)
    ensures e != TOO_DEEP
  {
    OtherErrors("", "", "", ".");
  }

  lemma {:induction false} TooDeepIsLong(setup: Setup, target: string, attempts: nat, level: Level, depth: nat)
    requires WireName(target) && ErrorText(level.lastError)
    requires Walk(setup, target, attempts, level, depth).error == Some(TOO_DEEP)
    requires WireReplies(setup)
    ensures |Walk(setup, target, attempts, level, depth).path| == |level.path| + depth
    decreases depth
  {
    hide WireName, ErrorText, TOO_DEEP, Visit, WireReplies;
    if depth > 0 {
      DoneErrors(setup, target, attempts, level);
      DescendsTo(setup, target, attempts, level);
      TooDeepIsLong(setup, target, attempts, Visit(setup, target, attempts, level).level, depth - 1);
    }
  }

  /** Names under one another have more and more dots. */
  lemma {:induction false} DescentDots(target: string, path: seq<string>, k: nat, n: nat)
    requires DescentFrom(target, path, k) && k < n <= |path|
    ensures Rank(path[n - 1]) >= n - k
  {
    hide IsSuffix, Rank;
    if n == k + 1 {
      WireRank(path[k]);
    } else {
      DescentDots(target, path, k, n - 1);
      BelowRank(path[n - 2], path[n - 1]);
    }
  }

  /** With the default depth, "chain too deep" takes at least three referrals to the root. */
  lemma TooDeepNeedsRootReferrals(zone: string, setup: Setup)
    requires WireReplies(setup) && setup.maxDepth.None? && TargetOf(zone) != "."
    requires Located(zone, setup).error == Some(TOO_DEEP)
    ensures var path := Located(zone, setup).path;
            |path| >= 4 && forall i :: 0 <= i < 4 ==> path[i] == "."
  {
    hide WireReplies, TargetOf, Walk, TOO_DEEP, Rank, IsSuffix;
    var target := TargetOf(zone);
    TargetIsWire(zone);
    SplitCount(target);
    WireRank(target);
    TooDeepIsLong(setup, target, Attempts(setup), Level(setup.rootServers, ".", ["."], ""), MaxDepth(setup, target));
    var k := PathDescends(zone, setup);
    var path := Located(zone, setup).path;
    RankIsDots(target);
    if |path| > k {
      DescentDots(target, path, k, |path|);
      BelowRank(path[|path| - 1], target);
    }
  }

  lemma RankIsDots(n: string)
    requires n != "."
    ensures Rank(n) == Dots(n)
  {}
}
