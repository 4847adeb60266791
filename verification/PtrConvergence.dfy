/** Rectification converges in one pass: once the suggested target is the only PTR of
    every missing, mismatched and ambiguous row and every orphan's targets are removed,
    the reconciler finds nothing left to do, exactly when each written target is among
    the forward names it was suggested from. Here a fix is made at its row's own place. */
module PtrConvergence {
  import opened Options
  import opened Text
  import opened InsertionMap
  import opened Sorting
  import opened AddressText
  import opened ReverseName
  import opened ReverseZoneLaws
  import opened PtrReconcile
  import A = AutoPtr
  import P = PtrReview

  /* ------------------------------------------------------------- the fixes */

  predicate IsSet(row: Row) {
    (row.status.Missing? || row.status.Mismatch? || row.status.Ambiguous?) &&
    row.suggestedTarget.Some? && row.reverseServer.Some? && row.reverseZone.Some?
  }

  predicate IsFix(row: Row) {
    IsSet(row) || (row.status.Orphan? && row.reverseServer.Some? && row.reverseZone.Some?)
  }

  function RowPlace(row: Row): Place
    requires IsFix(row)
  {
    Place(row.reverseServer.value, row.reverseZone.value, Lower(row.owner))
  }

  /** The record a `set` fix leaves, at the TTL the operator's request carries. */
  function Written(row: Row, ttl: Option<int>): Reverse
    requires IsSet(row)
  {
    var item := P.ReviewInput(row.owner, row.reverseZone, row.currentTargets, row.currentTtl, P.Set,
                              row.suggestedTarget.value, ttl);
    var rr := P.AfterOf(item).value;
    Reverse(row.reverseZone.value, row.reverseServer.value, row.horizon, row.owner, rr.ttl, rr.records)
  }

  /** The targets left once a `remove` fix was made for each of these. */
  function AfterRemoving(row: Row, targets: seq<string>, gone: seq<string>): seq<string>
    decreases |gone|
  {
    if gone == [] then targets
    else
      var item := P.ReviewInput(row.owner, row.reverseZone, targets, row.currentTtl, P.Remove, gone[0], None);
      var rr := P.AfterOf(item);
      AfterRemoving(row, if rr.Some? then rr.value.records else [], gone[1..])
  }

  function Without(reverse: seq<Reverse>, p: Place): seq<Reverse> {
    if reverse == [] then []
    else
      var init, r := Without(reverse[..|reverse| - 1], p), reverse[|reverse| - 1];
      if PlaceOf(r) == p then init else init + [r]
  }

  function ApplyFix(reverse: seq<Reverse>, row: Row, ttlOf: Row -> Option<int>): seq<Reverse> {
    if !IsFix(row) then reverse
    else if IsSet(row) then Without(reverse, RowPlace(row)) + [Written(row, ttlOf(row))]
    else
      var rest := AfterRemoving(row, row.currentTargets, row.currentTargets);
      Without(reverse, RowPlace(row)) +
      (if rest == [] then []
       else [Reverse(row.reverseZone.value, row.reverseServer.value, row.horizon, row.owner,
                     P.Or(row.currentTtl), rest)])
  }

  function ApplyFixes(reverse: seq<Reverse>, rows: seq<Row>, ttlOf: Row -> Option<int>): seq<Reverse> {
    if rows == [] then reverse
    else ApplyFix(ApplyFixes(reverse, rows[..|rows| - 1], ttlOf), rows[|rows| - 1], ttlOf)
  }

  function Rectified(input: Input, ttlOf: Row -> Option<int>): Input {
    input.(reverse := ApplyFixes(input.reverse, Rows(input), ttlOf))
  }

  /** What the installation guarantees: a server's copy of a zone is on one side of the
      horizon, a zone has one copy on each side, and PTRs are read from hosted copies. */
  ghost predicate Orderly(input: Input) {
    (forall a, b :: a in input.hosted && b in input.hosted && a.server == b.server && a.name == b.name ==>
       a.horizon == b.horizon) &&
    (forall a, b :: a in input.hosted && b in input.hosted && a.name == b.name && a.horizon == b.horizon ==>
       a.server == b.server) &&
    (forall r :: r in input.reverse ==> exists h :: h in input.hosted && IsCopyOf(h, r))
  }

  /** Every forward name is spelled absolutely, trimmed and with its trailing dot. */
  ghost predicate AbsoluteNames(input: Input) {
    forall f :: f in input.forward ==> AbsoluteName(f.name)
  }

  /** The name a fix would write, spelled absolutely, is one of the address's forward names. */
  predicate Settles(row: Row, names: seq<string>) {
    IsFix(row) && row.suggestedTarget.Some? ==> P.Absolute(row.suggestedTarget.value) in names
  }

  ghost predicate AllSettle(input: Input) {
    var groups := Grouped(input.forward);
    forall i :: 0 <= i < |groups| ==> Settles(GroupRow(input, groups[i].0, groups[i].1), Names(groups[i].1))
  }

  predicate IsCopyOf(h: HostedZone, r: Reverse) {
    h.name == r.zone && h.server == r.server && h.horizon == r.horizon
  }

  predicate AbsoluteName(name: string) {
    P.Absolute(name) == Lower(name)
  }

  /* ------------------------------------------- removing all targets of an RRset */

  lemma {:induction false} RemovingLeavesNothing(row: Row, targets: seq<string>, gone: seq<string>)
    requires forall t :: t in targets ==> exists g :: g in gone && P.Absolute(g) == P.Absolute(t)
    ensures AfterRemoving(row, targets, gone) == []
    decreases |gone|
  {
    hide *;
    RemovingStep(row, targets, gone);
    if gone == [] {
      NothingToRemove(targets);
    } else {
      NextIsGone(targets, gone);
      RemovingLeavesNothing(row, NextTargets(targets, gone[0]), gone[1..]);
    }
  }

  /** What a `remove` of one target leaves for the next one. */
  function NextTargets(targets: seq<string>, gone: string): seq<string> {
    P.AbsoluteAll(P.Remaining(targets, P.Absolute(gone)))
  }

  lemma RemovingStep(row: Row, targets: seq<string>, gone: seq<string>)
    ensures AfterRemoving(row, targets, gone) ==
            if gone == [] then targets else AfterRemoving(row, NextTargets(targets, gone[0]), gone[1..])
  {
    hide P.Absolute, P.Remaining;
    if gone != [] && P.Remaining(targets, P.Absolute(gone[0])) == [] {
      assert NextTargets(targets, gone[0]) == [];
    }
  }

  lemma NextIsGone(targets: seq<string>, gone: seq<string>)
    requires gone != [] && forall t :: t in targets ==> exists g :: g in gone && P.Absolute(g) == P.Absolute(t)
    ensures forall t :: t in NextTargets(targets, gone[0]) ==>
              exists g :: g in gone[1..] && P.Absolute(g) == P.Absolute(t)
  {
    hide P.Absolute;
    var rest := P.Remaining(targets, P.Absolute(gone[0]));
    var next := NextTargets(targets, gone[0]);
    forall t | t in next ensures exists g :: g in gone[1..] && P.Absolute(g) == P.Absolute(t) {
      var i :| 0 <= i < |next| && next[i] == t;
      assert rest[i] in rest;
      P.AbsoluteTwice(rest[i]);
      var g :| g in gone && P.Absolute(g) == P.Absolute(rest[i]);
      InTail(gone, g);
    }
  }

  lemma InTail(gone: seq<string>, g: string)
    requires gone != [] && g in gone && g != gone[0]
    ensures g in gone[1..]
  {
    assert gone == [gone[0]] + gone[1..];
  }

  lemma NothingToRemove(targets: seq<string>)
    requires forall t :: t in targets ==> exists g :: g in [] && P.Absolute(g) == P.Absolute(t)
    ensures targets == []
  {
    var first := if targets == [] then "" else targets[0];
    assert targets != [] ==> first in targets;
  }

  /* ------------------------------------------------ lookups after the fixes */

  lemma {:induction false} WithoutMember(reverse: seq<Reverse>, p: Place, r: Reverse)
    ensures r in Without(reverse, p) <==> r in reverse && PlaceOf(r) != p
  {
    hide PlaceOf;
    if reverse != [] {
      var n := |reverse| - 1;
      WithoutMember(reverse[..n], p, r);
      assert reverse == reverse[..n] + [reverse[n]];
    }
  }

  lemma LookupAppend(reverse: seq<Reverse>, r: Reverse, q: Place)
    ensures Lookup(reverse + [r], q) == if PlaceOf(r) == q then Some(r) else Lookup(reverse, q)
  {
    hide PlaceOf;
    assert (reverse + [r])[..|reverse|] == reverse;
  }

  lemma {:induction false} LookupWithout(reverse: seq<Reverse>, p: Place, q: Place)
    ensures Lookup(Without(reverse, p), q) == if p == q then None else Lookup(reverse, q)
  {
    hide PlaceOf;
    if reverse != [] {
      var n := |reverse| - 1;
      LookupWithout(reverse[..n], p, q);
      LookupAppend(Without(reverse[..n], p), reverse[n], q);
      LookupAppend(reverse[..n], reverse[n], q);
      assert reverse == reverse[..n] + [reverse[n]];
    }
  }

  lemma FixLookup(reverse: seq<Reverse>, row: Row, ttlOf: Row -> Option<int>, q: Place)
    requires row.status.Orphan? ==> AfterRemoving(row, row.currentTargets, row.currentTargets) == []
    ensures var r := ApplyFix(reverse, row, ttlOf);
            (!IsFix(row) || RowPlace(row) != q ==> Lookup(r, q) == Lookup(reverse, q)) &&
            (IsSet(row) && RowPlace(row) == q ==> Lookup(r, q) == Some(Written(row, ttlOf(row))))
  {
    hide AfterRemoving, Without, Lookup, Lower;
    if IsFix(row) {
      LookupWithout(reverse, RowPlace(row), q);
      if IsSet(row) {
        LookupAppend(Without(reverse, RowPlace(row)), Written(row, ttlOf(row)), q);
      } else {
        assert ApplyFix(reverse, row, ttlOf) == Without(reverse, RowPlace(row));
      }
    }
  }

  predicate OrphansEmptied(rows: seq<Row>) {
    forall i :: 0 <= i < |rows| && rows[i].status.Orphan? ==>
      AfterRemoving(rows[i], rows[i].currentTargets, rows[i].currentTargets) == []
  }

  /** A place no fix is about reads as before. */
  lemma {:induction false} FixesElsewhere(reverse: seq<Reverse>, rows: seq<Row>, ttlOf: Row -> Option<int>, q: Place)
    requires OrphansEmptied(rows)
    requires forall x :: x in rows && IsFix(x) ==> RowPlace(x) != q
    ensures Lookup(ApplyFixes(reverse, rows, ttlOf), q) == Lookup(reverse, q)
  {
    hide AfterRemoving, ApplyFix, Lookup;
    if rows != [] {
      var n := |rows| - 1;
      FixesElsewhere(reverse, rows[..n], ttlOf, q);
      FixLookup(ApplyFixes(reverse, rows[..n], ttlOf), rows[n], ttlOf, q);
    }
  }

  /** A place exactly one `set` row is about reads what it wrote. */
  lemma {:induction false} FixesAt(reverse: seq<Reverse>, rows: seq<Row>, ttlOf: Row -> Option<int>, row: Row)
    requires OrphansEmptied(rows) && row in rows && IsSet(row)
    requires forall x :: x in rows && IsFix(x) && RowPlace(x) == RowPlace(row) ==> x == row
    ensures Lookup(ApplyFixes(reverse, rows, ttlOf), RowPlace(row)) == Some(Written(row, ttlOf(row)))
  {
    hide AfterRemoving, ApplyFix, Lookup, Written, RowPlace;
    var n := |rows| - 1;
    FixLookup(ApplyFixes(reverse, rows[..n], ttlOf), rows[n], ttlOf, RowPlace(row));
    if rows[n] != row {
      assert rows == rows[..n] + [rows[n]];
      FixesAt(reverse, rows[..n], ttlOf, row);
    }
  }

  /** A record after the fixes was there untouched or is what a `set` row wrote. */
  lemma {:induction false} FixesMember(reverse: seq<Reverse>, rows: seq<Row>, ttlOf: Row -> Option<int>, r: Reverse)
    requires OrphansEmptied(rows) && r in ApplyFixes(reverse, rows, ttlOf)
    ensures (r in reverse && forall x :: x in rows && IsFix(x) ==> RowPlace(x) != PlaceOf(r)) ||
            (exists x :: x in rows && IsSet(x) && r == Written(x, ttlOf(x)))
  {
    hide AfterRemoving, ApplyFix, Written, RowPlace, PlaceOf, IsFix, IsSet;
    if rows != [] {
      var n := |rows| - 1;
      var before := ApplyFixes(reverse, rows[..n], ttlOf);
      assert rows == rows[..n] + [rows[n]] && rows[n] in rows;
      FixMember(before, rows[n], ttlOf, r);
      if r in before { FixesMember(reverse, rows[..n], ttlOf, r); }
    }
  }

  lemma FixMember(reverse: seq<Reverse>, row: Row, ttlOf: Row -> Option<int>, r: Reverse)
    requires row.status.Orphan? ==> AfterRemoving(row, row.currentTargets, row.currentTargets) == []
    requires r in ApplyFix(reverse, row, ttlOf)
    ensures (r in reverse && (IsFix(row) ==> RowPlace(row) != PlaceOf(r))) ||
            (IsSet(row) && r == Written(row, ttlOf(row)))
  {
    hide AfterRemoving, Without, Written, RowPlace, PlaceOf;
    if IsFix(row) { WithoutMember(reverse, RowPlace(row), r); }
  }

  /* ---------------------------------------------------- facts about groups */

  ghost predicate GroupInv(forward: seq<Forward>, key: GroupKey, g: Group) {
    ParseIp(g.ip) == Some(key.ip) && g.records != [] && forall f :: f in g.records ==> f in forward
  }

  lemma {:induction false} GroupsInv(forward: seq<Forward>)
    ensures Unique(Grouped(forward))
    ensures forall i :: 0 <= i < |Grouped(forward)| ==>
              GroupInv(forward, Grouped(forward)[i].0, Grouped(forward)[i].1)
  {
    hide ParseIp, Trim;
    if forward != [] {
      var n := |forward| - 1;
      GroupsInv(forward[..n]);
      assert forward == forward[..n] + [forward[n]];
      var old_ := Grouped(forward[..n]);
      var rec := forward[n];
      A.ParseIpTrims(rec.content);
      AddKeeps(forward, old_, rec);
    }
  }

  lemma AddKeeps(forward: seq<Forward>, groups: Groups, rec: Forward)
    requires forward != [] && rec == forward[|forward| - 1] && Unique(groups)
    requires ParseIp(Trim(rec.content)) == ParseIp(rec.content)
    requires forall i :: 0 <= i < |groups| ==> GroupInv(forward[..|forward| - 1], groups[i].0, groups[i].1)
    ensures var r := AddToGroups(groups, rec);
            Unique(r) && forall i :: 0 <= i < |r| ==> GroupInv(forward, r[i].0, r[i].1)
  {
    hide ParseIp, Trim;
    var n := |forward| - 1;
    assert forward == forward[..n] + [rec];
    forall i | 0 <= i < |groups| ensures GroupInv(forward, groups[i].0, groups[i].1) {
      assert GroupInv(forward[..n], groups[i].0, groups[i].1);
    }
    var parsed := ParseIp(rec.content);
    if parsed.Some? {
      var key := GroupKey(rec.horizon, parsed.value);
      var p := InsertionMap.Place(groups, key);
      if p >= 0 { assert GroupInv(forward, groups[p].0, groups[p].1); }
    }
  }

  lemma NamesAre(g: Group, n: string)
    requires g.records != []
    ensures n in Names(g) <==> exists f :: f in g.records && Lower(f.name) == n
    ensures Names(g) != []
  {
    hide Lower, Precedes, Sort, LowerSet;
    var names := ForwardNames(g.records);
    LowerSetMember(names, n);
    SortPermutes(LowerSet(names), Precedes);
    LowerSetMember(names, Lower(names[0]));
    assert names[0] in names;
    if v :| v in names && Lower(v) == n {
      var i :| 0 <= i < |names| && names[i] == v;
      assert g.records[i] in g.records && g.records[i].name == v;
    }
    if f :| f in g.records && Lower(f.name) == n {
      var i :| 0 <= i < |g.records| && g.records[i] == f;
      assert names[i] in names;
    }
  }

  lemma {:induction false} ClaimsMember(input: Input, groups: Groups, i: nat)
    requires i < |groups|
    ensures ClaimsOf(input, groups[i].0, groups[i].1) <= Claims(input, groups)
  {
    hide ClaimsOf;
    var n := |groups| - 1;
    if i < n { ClaimsMember(input, groups[..n], i); }
  }

  /* ------------------------------------------------------ facts about rows */

  /** A row is its group's or its orphan's. */
  lemma RowSource(input: Input, row: Row) returns (orphan: bool, i: nat, r: Reverse)
    requires row in Rows(input)
    ensures var groups := Grouped(input.forward);
            if orphan then r in input.reverse && IsOrphan(r, Claims(input, groups)) && row == OrphanRowOf(input, r)
            else i < |groups| && row == GroupRow(input, groups[i].0, groups[i].1)
  {
    hide Grouped, Claims, Sort, GroupRow, OrphanRowOf, IsOrphan;
    var groups := Grouped(input.forward);
    SortPermutes(UnsortedRows(input), RowBefore(input));
    var a, b := GroupRows(input, groups), OrphanRows(input, Claims(input, groups), input.reverse);
    assert row in a || row in b;
    i, r := 0, Reverse("", "", Public, "", 0, []);
    orphan := row !in a;
    if !orphan {
      i :| 0 <= i < |a| && a[i] == row;
    } else {
      r := OrphanSource(input, Claims(input, groups), input.reverse, row);
    }
  }

  lemma {:induction false} OrphanSource(input: Input, claims: set<Claim>, reverse: seq<Reverse>, row: Row)
    returns (r: Reverse)
    requires row in OrphanRows(input, claims, reverse)
    ensures r in reverse && IsOrphan(r, claims) && row == OrphanRowOf(input, r)
  {
    hide IsOrphan, OrphanRowOf;
    var n := |reverse| - 1;
    if row in OrphanRows(input, claims, reverse[..n]) {
      r := OrphanSource(input, claims, reverse[..n], row);
    } else {
      r := reverse[n];
    }
  }

  lemma GroupRowIn(input: Input, i: nat)
    requires i < |Grouped(input.forward)|
    ensures GroupRow(input, Grouped(input.forward)[i].0, Grouped(input.forward)[i].1) in Rows(input)
  {
    hide Grouped, Claims, Sort, GroupRow, OrphanRows;
    SortPermutes(UnsortedRows(input), RowBefore(input));
    assert GroupRows(input, Grouped(input.forward))[i] in UnsortedRows(input);
  }

  lemma {:induction false} OrphanIn(input: Input, claims: set<Claim>, reverse: seq<Reverse>, r: Reverse)
    requires r in reverse && IsOrphan(r, claims)
    ensures OrphanRowOf(input, r) in OrphanRows(input, claims, reverse)
  {
    hide OrphanRowOf, IpFromReverseOwner, Lower;
    var n := |reverse| - 1;
    if r in reverse[..n] { OrphanIn(input, claims, reverse[..n], r); } else { assert r == reverse[n]; }
  }

  lemma OrphanRowIn(input: Input, r: Reverse)
    requires r in input.reverse && IsOrphan(r, Claims(input, Grouped(input.forward)))
    ensures OrphanRowOf(input, r) in Rows(input)
  {
    hide Grouped, Claims, Sort, GroupRow, OrphanRows, OrphanRowOf;
    SortPermutes(UnsortedRows(input), RowBefore(input));
    OrphanIn(input, Claims(input, Grouped(input.forward)), input.reverse, r);
  }

  /** Where a group's PTR lives, when it is hosted. */
  function GroupPlace(input: Input, key: GroupKey, g: Group): Place
    requires GroupHost(input, key.horizon, g.ip).Some?
  {
    var m := GroupMatch(input, key.horizon, g.ip).value;
    Place(GroupHost(input, key.horizon, g.ip).value.server, m.zone, Lower(m.owner))
  }

  lemma GroupRowFields(input: Input, key: GroupKey, g: Group)
    ensures var row := GroupRow(input, key, g);
            var m, host := GroupMatch(input, key.horizon, g.ip), GroupHost(input, key.horizon, g.ip);
            (row.status, row.suggestedTarget) ==
              Decide(host.Some?, Names(g), LowerAll(TargetsOf(Current(input, key.horizon, g.ip)))) &&
            row.horizon == key.horizon && row.owner == (if m.Some? then m.value.owner else "") &&
            row.reverseZone == (if m.Some? then Some(m.value.zone) else None) &&
            row.reverseServer == (if host.Some? then Some(host.value.server) else None)
  {
    hide Names, GroupMatch, GroupHost, Current, TargetsOf, Decide, LowerAll, Sort;
  }

  lemma GroupRowShape(input: Input, key: GroupKey, g: Group)
    requires g.records != []
    ensures var row, host := GroupRow(input, key, g), GroupHost(input, key.horizon, g.ip);
            !row.status.Orphan? &&
            (row.status.Unhosted? <==> host.None?) &&
            (IsFix(row) <==> host.Some? && !row.status.Ok?) &&
            (IsFix(row) ==> IsSet(row) && RowPlace(row) == GroupPlace(input, key, g) &&
                            row.suggestedTarget.value in Names(g) && row.horizon == key.horizon &&
                            row.reverseZone == Some(GroupMatch(input, key.horizon, g.ip).value.zone) &&
                            row.owner == GroupMatch(input, key.horizon, g.ip).value.owner)
  {
    NamesAre(g, "");
    GroupRowFields(input, key, g);
    hide GroupRow, Names, FindReverseZone, HostedByHorizon, HostOf, Lower, LowerAll, Decide, Current, TargetsOf;
    DecideShape(GroupHost(input, key.horizon, g.ip).Some?, Names(g),
                LowerAll(TargetsOf(Current(input, key.horizon, g.ip))));
  }

  lemma DecideShape(hosted: bool, names: seq<string>, targets: seq<string>)
    requires names != []
    ensures var (status, suggested) := Decide(hosted, names, targets);
            !status.Orphan? && (status.Unhosted? <==> !hosted) && (suggested.Some? <==> hosted) &&
            (hosted && !status.Ok? ==>
               (status.Missing? || status.Mismatch? || status.Ambiguous?) && suggested.value in names)
  {
    hide FirstAmong;
  }

  lemma OrphanRowShape(input: Input, r: Reverse)
    requires Orderly(input) && r in input.reverse && IpFromReverseOwner(r.owner).Some?
    ensures var row := OrphanRowOf(input, r); IsFix(row) && RowPlace(row) == PlaceOf(r)
  {
    hide IpFromReverseOwner, ParseIp, Lower;
    LowerIdempotent(r.owner);
    var h :| h in input.hosted && IsCopyOf(h, r);
    var host := HostOf(r.zone, input.hosted, r.horizon);
    assert IsCopy(h, r.zone, r.horizon);
  }

  lemma OrphanIsEmptied(input: Input, r: Reverse)
    requires IpFromReverseOwner(r.owner).Some?
    ensures var row := OrphanRowOf(input, r); AfterRemoving(row, row.currentTargets, row.currentTargets) == []
  {
    hide IpFromReverseOwner, ParseIp, Lower, HostOf;
    var row := OrphanRowOf(input, r);
    RemovingLeavesNothing(row, row.currentTargets, row.currentTargets);
  }

  lemma RowsOrphansEmptied(input: Input)
    ensures OrphansEmptied(Rows(input))
  {
    hide Rows, AfterRemoving, OrphanRowOf, GroupRow, IsOrphan, Grouped, Claims;
    var rows := Rows(input);
    forall i | 0 <= i < |rows| && rows[i].status.Orphan?
      ensures AfterRemoving(rows[i], rows[i].currentTargets, rows[i].currentTargets) == []
    {
      assert rows[i] in rows;
      var orphan, j, r := RowSource(input, rows[i]);
      if orphan {
        OrphanHasIp(r, Claims(input, Grouped(input.forward)));
        OrphanIsEmptied(input, r);
      } else {
        GroupsInv(input.forward);
        GroupRowShape(input, Grouped(input.forward)[j].0, Grouped(input.forward)[j].1);
      }
    }
  }

  lemma OrphanHasIp(r: Reverse, claims: set<Claim>)
    requires IsOrphan(r, claims)
    ensures IpFromReverseOwner(r.owner).Some? && Claim(r.horizon, r.zone, Lower(r.owner)) !in claims && r.targets != []
  {}

  /** Two hosted groups never share a place. */
  lemma PlacesDiffer(input: Input, i: nat, j: nat)
    requires Orderly(input) && i < |Grouped(input.forward)| && j < |Grouped(input.forward)| && i != j
    requires var (key, g) := Grouped(input.forward)[i]; GroupHost(input, key.horizon, g.ip).Some?
    requires var (key, g) := Grouped(input.forward)[j]; GroupHost(input, key.horizon, g.ip).Some?
    ensures var groups := Grouped(input.forward);
            GroupPlace(input, groups[i].0, groups[i].1) != GroupPlace(input, groups[j].0, groups[j].1)
  {
    GroupsInv(input.forward);
    hide Grouped, FindReverseZone, HostedByHorizon, Lower;
    var groups := Grouped(input.forward);
    var (k, g) := groups[i];
    var (l, h) := groups[j];
    assert GroupInv(input.forward, k, g) && GroupInv(input.forward, l, h);
    assert k != l;
    var zk, zl := HostedByHorizon(input.hosted, k.horizon), HostedByHorizon(input.hosted, l.horizon);
    OwnerIsLower(g.ip, zk);
    OwnerIsLower(h.ip, zl);
    if GroupPlace(input, k, g) == GroupPlace(input, l, h) {
      OwnerDeterminesAddress(g.ip, h.ip, zk, zl);
    }
  }

  /** An orphan is never at a hosted group's place. */
  lemma OrphanElsewhere(input: Input, i: nat, r: Reverse)
    requires Orderly(input) && i < |Grouped(input.forward)|
    requires var (key, g) := Grouped(input.forward)[i]; GroupHost(input, key.horizon, g.ip).Some?
    requires r in input.reverse && IsOrphan(r, Claims(input, Grouped(input.forward)))
    ensures GroupPlace(input, Grouped(input.forward)[i].0, Grouped(input.forward)[i].1) != PlaceOf(r)
  {
    hide Grouped, FindReverseZone, HostedByHorizon, Lower, Claims, IsOrphan;
    var groups := Grouped(input.forward);
    var (key, g) := groups[i];
    OrphanHasIp(r, Claims(input, groups));
    ClaimsMember(input, groups, i);
    var h :| h in input.hosted && IsCopyOf(h, r);
    var host := GroupHost(input, key.horizon, g.ip).value;
    assert host in input.hosted && IsCopy(host, host.name, key.horizon);
  }

  /** Of all the fixes only a group's own is at its place. */
  lemma OnlyOwnFix(input: Input, i: nat, x: Row)
    requires Orderly(input) && i < |Grouped(input.forward)|
    requires var (key, g) := Grouped(input.forward)[i]; GroupHost(input, key.horizon, g.ip).Some?
    requires x in Rows(input) && IsFix(x)
    requires RowPlace(x) == GroupPlace(input, Grouped(input.forward)[i].0, Grouped(input.forward)[i].1)
    ensures x == GroupRow(input, Grouped(input.forward)[i].0, Grouped(input.forward)[i].1)
  {
    hide Rows, OrphanRowOf, GroupRow, IsOrphan, Grouped, Claims, GroupPlace, RowPlace, GroupHost, IsFix;
    var orphan, j, r := RowSource(input, x);
    GroupsInv(input.forward);
    var groups := Grouped(input.forward);
    if orphan {
      OrphanHasIp(r, Claims(input, groups));
      OrphanRowShape(input, r);
      OrphanElsewhere(input, i, r);
    } else {
      assert GroupInv(input.forward, groups[j].0, groups[j].1);
      GroupRowShape(input, groups[j].0, groups[j].1);
      if j != i { PlacesDiffer(input, i, j); }
    }
  }

  /* ------------------------------------------------------- the second pass */

  lemma SameGroups(input: Input, ttlOf: Row -> Option<int>)
    ensures var next := Rectified(input, ttlOf);
            next.forward == input.forward && next.hosted == input.hosted &&
            Claims(next, Grouped(next.forward)) == Claims(input, Grouped(input.forward))
  {
    hide Rows, ApplyFixes, Grouped;
    SameClaims(input, Rectified(input, ttlOf), Grouped(input.forward));
  }

  lemma {:induction false} SameClaims(input: Input, next: Input, groups: Groups)
    requires next.hosted == input.hosted
    ensures Claims(next, groups) == Claims(input, groups)
  {
    hide FindReverseZone, HostedByHorizon;
    if groups != [] { SameClaims(input, next, groups[..|groups| - 1]); }
  }

  /** An ok row's RRset is not touched and the row comes out the same. */
  lemma OkRowKept(input: Input, ttlOf: Row -> Option<int>, i: nat)
    requires Orderly(input) && i < |Grouped(input.forward)|
    requires GroupRow(input, Grouped(input.forward)[i].0, Grouped(input.forward)[i].1).status.Ok?
    ensures var groups := Grouped(input.forward);
            GroupRow(Rectified(input, ttlOf), groups[i].0, groups[i].1) == GroupRow(input, groups[i].0, groups[i].1)
  {
    var groups := Grouped(input.forward);
    var (key, g) := groups[i];
    GroupsInv(input.forward);
    assert GroupInv(input.forward, key, g);
    GroupRowShape(input, key, g);
    RowsOrphansEmptied(input);
    hide Rows, OrphansEmptied, GroupRow, RowPlace, IsFix, GroupPlace, Lookup, Grouped, FindReverseZone,
         HostedByHorizon, HostOf;
    var q := GroupPlace(input, key, g);
    forall x | x in Rows(input) && IsFix(x) ensures RowPlace(x) != q {
      if RowPlace(x) == q { OnlyOwnFix(input, i, x); }
    }
    FixesElsewhere(input.reverse, Rows(input), ttlOf, q);
    SameLookup(input, Rectified(input, ttlOf), key, g);
  }

  lemma SameLookup(input: Input, next: Input, key: GroupKey, g: Group)
    requires next == input.(reverse := next.reverse) && GroupHost(input, key.horizon, g.ip).Some?
    requires Lookup(next.reverse, GroupPlace(input, key, g)) == Lookup(input.reverse, GroupPlace(input, key, g))
    ensures GroupRow(next, key, g) == GroupRow(input, key, g)
  {
    hide Names, FindReverseZone, HostedByHorizon, HostOf, Lookup, Sort, Lower, LowerAll, Decide;
  }

  /** A fixed row has the suggested target as its only PTR, and is ok exactly when that
      is one of its names. */
  lemma FixedRowOutcome(input: Input, ttlOf: Row -> Option<int>, i: nat)
    requires Orderly(input) && i < |Grouped(input.forward)|
    requires IsFix(GroupRow(input, Grouped(input.forward)[i].0, Grouped(input.forward)[i].1))
    ensures var (key, g) := Grouped(input.forward)[i];
            var row, next := GroupRow(input, key, g), GroupRow(Rectified(input, ttlOf), key, g);
            row.suggestedTarget.Some? && next.currentTargets == [P.Absolute(row.suggestedTarget.value)] &&
            !next.status.Unhosted? && (next.status.Ok? <==> Settles(row, Names(g)))
  {
    hide Rows, OrphansEmptied, GroupRow, RowPlace, IsFix, GroupPlace, Lookup, Grouped, GroupInv, FindReverseZone,
         HostedByHorizon, HostOf, P.Absolute, Lower, Names, Orderly, Written, GroupHost, AbsoluteName;
    var groups := Grouped(input.forward);
    var (key, g) := groups[i];
    GroupsInv(input.forward);
    GroupInvAt(input.forward, key, g);
    GroupRowShape(input, key, g);
    RowsOrphansEmptied(input);
    GroupRowIn(input, i);
    var row := GroupRow(input, key, g);
    var s := row.suggestedTarget.value;
    forall x | x in Rows(input) && IsFix(x) && RowPlace(x) == RowPlace(row) ensures x == row {
      OnlyOwnFix(input, i, x);
    }
    FixesAt(input.reverse, Rows(input), ttlOf, row);
    WrittenTargets(row, ttlOf(row), s);
    P.AbsoluteTwice(s);
    WrittenIsOk(input, Rectified(input, ttlOf), key, g, Written(row, ttlOf(row)), P.Absolute(s));
  }

  lemma GroupInvAt(forward: seq<Forward>, key: GroupKey, g: Group)
    requires GroupInv(forward, key, g)
    ensures g.records != [] && forall f :: f in g.records ==> f in forward
  {}

  lemma WrittenTargets(row: Row, ttl: Option<int>, s: string)
    requires IsSet(row) && row.suggestedTarget == Some(s)
    ensures Written(row, ttl).targets == [P.Absolute(s)]
  {
    hide P.Absolute;
  }

  lemma WrittenIsOk(input: Input, next: Input, key: GroupKey, g: Group, w: Reverse, s: string)
    requires next == input.(reverse := next.reverse) && GroupHost(input, key.horizon, g.ip).Some?
    requires Lookup(next.reverse, GroupPlace(input, key, g)) == Some(w)
    requires w.targets == [s] && Lower(s) == s
    ensures var row := GroupRow(next, key, g);
            !row.status.Unhosted? && (row.status.Ok? <==> s in Names(g)) && row.currentTargets == [s]
  {
    hide Names, FindReverseZone, HostedByHorizon, HostOf, Lookup, Sort, Lower;
    assert LowerAll([s]) == [s];
  }

  /** Absolute forward names are enough. */
  lemma AbsoluteNamesSettle(input: Input)
    requires AbsoluteNames(input)
    ensures AllSettle(input)
  {
    hide GroupRow, Grouped, Names, P.Absolute, Lower, GroupInv;
    var groups := Grouped(input.forward);
    GroupsInv(input.forward);
    forall i | 0 <= i < |groups|
      ensures Settles(GroupRow(input, groups[i].0, groups[i].1), Names(groups[i].1))
    {
      var (key, g) := groups[i];
      GroupInvAt(input.forward, key, g);
      GroupRowShape(input, key, g);
      var row := GroupRow(input, key, g);
      if IsFix(row) {
        var s := row.suggestedTarget.value;
        NamesAre(g, s);
        var f :| f in g.records && Lower(f.name) == s;
        assert AbsoluteName(f.name);
        P.AbsoluteTwice(f.name);
      }
    }
  }

  /** No record after the fixes is an orphan. */
  lemma NoOrphanLeft(input: Input, ttlOf: Row -> Option<int>, r: Reverse)
    requires Orderly(input) && r in Rectified(input, ttlOf).reverse
    ensures !IsOrphan(r, Claims(input, Grouped(input.forward)))
  {
    RowsOrphansEmptied(input);
    hide Rows, OrphansEmptied, Grouped, Claims, RowPlace, IsOrphan, OrphanRowOf, GroupRow, ApplyFixes, IsFix, Orderly;
    FixesMember(input.reverse, Rows(input), ttlOf, r);
    if IsOrphan(r, Claims(input, Grouped(input.forward))) {
      OrphanHasIp(r, Claims(input, Grouped(input.forward)));
      if r in input.reverse && forall x :: x in Rows(input) && IsFix(x) ==> RowPlace(x) != PlaceOf(r) {
        OrphanRowIn(input, r);
        OrphanRowShape(input, r);
      } else {
        var x :| x in Rows(input) && IsSet(x) && r == Written(x, ttlOf(x));
        WrittenIsClaimed(input, ttlOf, x);
      }
    }
  }

  lemma WrittenIsClaimed(input: Input, ttlOf: Row -> Option<int>, x: Row)
    requires x in Rows(input) && IsSet(x)
    ensures var r := Written(x, ttlOf(x));
            Claim(r.horizon, r.zone, Lower(r.owner)) in Claims(input, Grouped(input.forward))
  {
    hide Rows, Grouped, Claims, IsOrphan, GroupRow, FindReverseZone, HostedByHorizon, HostOf, IpFromReverseOwner;
    var orphan, i, r := RowSource(input, x);
    var groups := Grouped(input.forward);
    if orphan { OrphanHasIp(r, Claims(input, groups)); }
    GroupsInv(input.forward);
    assert GroupInv(input.forward, groups[i].0, groups[i].1);
    GroupRowShape(input, groups[i].0, groups[i].1);
    ClaimsMember(input, groups, i);
  }

  lemma SecondRow(input: Input, ttlOf: Row -> Option<int>, row: Row)
    requires Orderly(input) && AllSettle(input) && row in Rows(Rectified(input, ttlOf))
    ensures row.status.Ok? || row.status.Unhosted?
  {
    SameGroups(input, ttlOf);
    hide Rows, Grouped, Claims, IsOrphan, GroupRow, IsFix, Orderly, OrphanRowOf, Settles, Names;
    var next := Rectified(input, ttlOf);
    var orphan, i, r := RowSource(next, row);
    var groups := Grouped(input.forward);
    if orphan {
      NoOrphanLeft(input, ttlOf, r);
    } else {
      var (key, g) := groups[i];
      GroupsInv(input.forward);
      GroupInvAt(input.forward, key, g);
      GroupRowShape(input, key, g);
      GroupRowShape(next, key, g);
      var first := GroupRow(input, key, g);
      if first.status.Ok? { OkRowKept(input, ttlOf, i); }
      else if IsFix(first) { FixedRowOutcome(input, ttlOf, i); }
      else { SameHost(input, next, key, g); }
    }
  }

  predicate Quiet(row: Row) {
    row.status.Ok? || row.status.Unhosted?
  }

  /** One round of fixes settles everything, the second reconciliation having only ok
      and unhosted rows, exactly when every name it writes is one it compares with. */
  lemma OneRoundSettlesIff(input: Input, ttlOf: Row -> Option<int>)
    requires Orderly(input)
    ensures (forall row :: row in Rows(Rectified(input, ttlOf)) ==> Quiet(row)) <==> AllSettle(input)
  {
    SameGroups(input, ttlOf);
    hide Rows, Grouped, GroupRow, Orderly, Settles, Names, Rectified, IsFix;
    if AllSettle(input) {
      forall row | row in Rows(Rectified(input, ttlOf)) ensures Quiet(row) { SecondRow(input, ttlOf, row); }
    } else {
      var groups := Grouped(input.forward);
      var i :| 0 <= i < |groups| && !Settles(GroupRow(input, groups[i].0, groups[i].1), Names(groups[i].1));
      UnsettledIsFix(GroupRow(input, groups[i].0, groups[i].1), Names(groups[i].1));
      FixedRowOutcome(input, ttlOf, i);
      GroupRowIn(Rectified(input, ttlOf), i);
      assert !Quiet(GroupRow(Rectified(input, ttlOf), groups[i].0, groups[i].1));
    }
  }

  lemma UnsettledIsFix(row: Row, names: seq<string>)
    requires !Settles(row, names)
    ensures IsFix(row)
  {}

  lemma SameHost(input: Input, next: Input, key: GroupKey, g: Group)
    requires next.hosted == input.hosted
    ensures GroupHost(next, key.horizon, g.ip) == GroupHost(input, key.horizon, g.ip)
  {}

  /** And every row that was ok is still there, unchanged. */
  lemma OkStaysOk(input: Input, ttlOf: Row -> Option<int>, row: Row)
    requires Orderly(input) && row in Rows(input) && row.status.Ok?
    ensures row in Rows(Rectified(input, ttlOf))
  {
    SameGroups(input, ttlOf);
    hide Rows, Grouped, Claims, IsOrphan, GroupRow, IsFix, Orderly;
    var orphan, i, r := RowSource(input, row);
    if !orphan {
      OkRowKept(input, ttlOf, i);
      GroupRowIn(Rectified(input, ttlOf), i);
    }
  }

  lemma {:induction false} CountZero(rows: seq<Row>, s: Status)
    requires forall i :: 0 <= i < |rows| ==> rows[i].status != s
    ensures Count(rows, s) == 0
  {
    if rows != [] { CountZero(rows[..|rows| - 1], s); }
  }

  /** With absolute forward names the second pass counts ok and unhosted rows only. */
  lemma SecondPassStats(input: Input, ttlOf: Row -> Option<int>)
    requires Orderly(input) && AbsoluteNames(input)
    ensures var s := StatsOf(Rows(Rectified(input, ttlOf)));
            s.missing == 0 && s.mismatch == 0 && s.ambiguous == 0 && s.orphan == 0
  {
    hide Rows, Orderly, Rectified, AbsoluteNames, AllSettle;
    var rows := Rows(Rectified(input, ttlOf));
    AbsoluteNamesSettle(input);
    OneRoundSettlesIff(input, ttlOf);
    forall i | 0 <= i < |rows| ensures rows[i].status.Ok? || rows[i].status.Unhosted? {
      assert rows[i] in rows && Quiet(rows[i]);
    }
    CountZero(rows, Missing);
    CountZero(rows, Mismatch);
    CountZero(rows, Ambiguous);
    CountZero(rows, Orphan);
  }

  /* ------------------------------------------------ a name that never settles */

  /** One forward record without a trailing dot, in a hosted /24 that holds no PTR. */
  function RelativeInput(o: seq<nat>, canWrite: (string, string) -> bool, forwardBefore: (Forward, Forward) -> bool,
                         ipBefore: (string, string) -> bool): Input
    requires ValidOctets(o)
  {
    Input([Forward("z", "s", Public, "h", 300, false, Quad(o).canonical)], [],
          [HostedZone(ZoneAbove(o, 1), "s", true, Public)], canWrite, forwardBefore, ipBefore)
  }

  /** Its fix writes `h.`, which the next reconciliation does not find among its names. */
  lemma RelativeNameUnsettled(o: seq<nat>, canWrite: (string, string) -> bool,
                              forwardBefore: (Forward, Forward) -> bool,
                              ipBefore: (string, string) -> bool, ttlOf: Row -> Option<int>)
    requires ValidOctets(o)
    ensures var input := RelativeInput(o, canWrite, forwardBefore, ipBefore);
            Orderly(input) && exists row :: row in Rows(Rectified(input, ttlOf)) && !Quiet(row)
  {
    hide Rectified, Rows, ZoneAbove, Grouped, GroupRow, Settles;
    var input := RelativeInput(o, canWrite, forwardBefore, ipBefore);
    OneRoundSettlesIff(input, ttlOf);
    var key, g := OneGroup(input.forward[0], o);
    RelativeRow(input, o, key, g);
    assert Grouped(input.forward)[0] == (key, g);
  }

  lemma OneGroup(f: Forward, o: seq<nat>) returns (key: GroupKey, g: Group)
    requires ValidOctets(o) && f.content == Quad(o).canonical
    ensures key == GroupKey(f.horizon, Quad(o)) && g == Group(Quad(o).canonical, [f]) && Grouped([f]) == [(key, g)]
  {
    QuadIsParsed(o);
    QuadTrimmed(o);
    key, g := GroupKey(f.horizon, Quad(o)), Group(Quad(o).canonical, [f]);
    hide *;
    OneAdded(f);
    GroupedOne(f);
  }

  lemma OneAdded(f: Forward)
    requires ParseIp(f.content).Some?
    ensures AddToGroups([], f) == [(GroupKey(f.horizon, ParseIp(f.content).value), Group(Trim(f.content), [f]))]
  {
    hide ParseIp, Trim;
    var records: seq<Forward> := [];
    assert records + [f] == [f];
  }

  lemma GroupedOne(f: Forward)
    ensures Grouped([f]) == AddToGroups([], f)
  {
    hide AddToGroups;
    assert [f][..0] == [] && Grouped([]) == [];
  }

  lemma QuadTrimmed(o: seq<nat>)
    requires ValidOctets(o)
    ensures Trim(Quad(o).canonical) == Quad(o).canonical
  {
    Ipv4RoundTrip(o);
    PlainIsFixed(Quad(o).canonical);
  }

  lemma RelativeRow(input: Input, o: seq<nat>, key: GroupKey, g: Group)
    requires ValidOctets(o) && input.hosted == [HostedZone(ZoneAbove(o, 1), "s", true, Public)] && input.reverse == []
    requires key == GroupKey(Public, Quad(o)) && g.ip == Quad(o).canonical && |g.records| == 1 &&
             g.records[0].name == "h"
    ensures !Settles(GroupRow(input, key, g), Names(g))
  {
    hide ZoneAbove, FindReverseZone, ParseIp, ParseIpv4, OwnerOf, CanonicalZone, ParseClasslessZone, ProperSuffix;
    var zone := ZoneAbove(o, 1);
    QuadIsParsed(o);
    AboveCanonical(o, 1);
    AboveSuffix(o, 1);
    AboveNotClassless(o, 1);
    FindLongest(g.ip, [zone], zone);
    OneZone(input.hosted, zone);
    RelativeH();
    OneName(g, "h");
    MissingRow(input, key, g);
  }

  lemma OneZone(hosted: seq<HostedZone>, zone: string)
    requires hosted == [HostedZone(zone, "s", true, Public)]
    ensures HostedByHorizon(hosted, Public) == [zone]
    ensures HostOf(zone, hosted, Public) == Some(hosted[0])
  {
    assert |hosted[..0]| == 0;
    assert IsCopy(hosted[0], zone, Public) && FirstCopy(hosted, zone, Public, true) == Some(hosted[0]);
  }

  lemma OneName(g: Group, name: string)
    requires |g.records| == 1 && g.records[0].name == name && Lower(name) == name
    ensures Names(g) == [name]
  {
    hide Lower, Precedes;
    var n := ForwardNames(g.records);
    assert n == [name] && |n[..0]| == 0;
    assert LowerSet(n) == [name];
    SortPermutes([name], Precedes);
    assert |Sort([name], Precedes)| == 1;
  }

  lemma RelativeH()
    ensures Lower("h") == "h" && P.Absolute("h") == "h."
  {
    PlainH();
    hide Trim, Lower, Plain;
    PlainIsFixed("h");
  }

  lemma PlainH()
    ensures Plain("h")
  {}

  lemma MissingRow(input: Input, key: GroupKey, g: Group)
    requires GroupHost(input, key.horizon, g.ip).Some? && input.reverse == []
    requires Names(g) == ["h"] && P.Absolute("h") == "h."
    ensures !Settles(GroupRow(input, key, g), Names(g))
  {
    hide Names, FindReverseZone, HostedByHorizon, HostOf, Sort, Lower;
  }
}
