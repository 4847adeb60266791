/** What every row of the reverse-DNS diff says, in terms of the records it is made from. */
module PtrRows {
  import opened Options
  import opened Text
  import opened InsertionMap
  import opened Sorting
  import opened Selection
  import opened ReverseName
  import opened ReverseZoneLaws
  import opened PtrReconcile
  import opened PtrConvergence

  /* ------------------------------------------------------------ the groups */

  /** The forward records of one horizon and address. */
  ghost function Under(key: GroupKey): Forward -> bool {
    (f: Forward) => f.horizon == key.horizon && ParseIp(f.content) == Some(key.ip)
  }

  ghost function Itself(): Forward -> Forward {
    (f: Forward) => f
  }

  function RecordsAt(groups: Groups, key: GroupKey): seq<Forward> {
    if Has(groups, key) then Get(groups, key).records else []
  }

  /** There is one group for each horizon and address that has a record, with exactly its
      records in order, shown as the first of them spells the address. */
  lemma {:induction false} GroupedIs(forward: seq<Forward>, key: GroupKey)
    ensures IsSelection(forward, Under(key), Itself(), RecordsAt(Grouped(forward), key))
    ensures Has(Grouped(forward), key) <==> RecordsAt(Grouped(forward), key) != []
    ensures Has(Grouped(forward), key) ==>
              Get(Grouped(forward), key).ip == Trim(RecordsAt(Grouped(forward), key)[0].content)
  {
    hide IsSelection, ParseIp, Trim;
    if forward == [] {
      SelectNone(Under(key), Itself());
    } else {
      var init, last := forward[..|forward| - 1], forward[|forward| - 1];
      GroupedIs(init, key);
      SelectNext(init, Under(key), Itself(), RecordsAt(Grouped(init), key), last);
      assert init + [last] == forward;
      AddIs(Grouped(init), last, key);
    }
  }

  lemma AddIs(groups: Groups, rec: Forward, key: GroupKey)
    ensures var r := AddToGroups(groups, rec);
            var before := RecordsAt(groups, key);
            RecordsAt(r, key) == (if Under(key)(rec) then before + [rec] else before) &&
            (Has(r, key) <==> Has(groups, key) || Under(key)(rec)) &&
            (Has(r, key) ==> Get(r, key).ip == if Has(groups, key) then Get(groups, key).ip else Trim(rec.content))
  {
    hide ParseIp, Trim, Put, Has, Get;
    var parsed := ParseIp(rec.content);
    if parsed.Some? {
      var k := GroupKey(rec.horizon, parsed.value);
      var g := if Has(groups, k) then Get(groups, k) else Group(Trim(rec.content), []);
      PutGet(groups, k, g.(records := g.records + [rec]), key);
    }
  }

  /* ---------------------------------------------------------- where they live */

  ghost function OnSide(horizon: Horizon): HostedZone -> bool {
    (h: HostedZone) => h.horizon == horizon
  }

  ghost function ZoneName(): HostedZone -> string {
    (h: HostedZone) => h.name
  }

  /** The zones an address is matched against: those hosted on its side, as listed. */
  lemma MatchIs(input: Input, horizon: Horizon, ip: string) returns (zones: seq<string>)
    ensures IsSelection(input.hosted, OnSide(horizon), ZoneName(), zones)
    ensures GroupMatch(input, horizon, ip) == FindReverseZone(ip, zones)
  {
    hide IsSelection, Hosted, HostedByHorizon, MatchFor, ParseIp;
    zones := SideIs(input.hosted, horizon);
  }

  /** Listing a zone again does not matter. */
  lemma {:induction false} SideIs(hosted: seq<HostedZone>, horizon: Horizon) returns (zones: seq<string>)
    ensures IsSelection(hosted, OnSide(horizon), ZoneName(), zones)
    ensures Hosted(HostedByHorizon(hosted, horizon)) == Hosted(zones)
    ensures forall n :: n in HostedByHorizon(hosted, horizon) <==> n in zones
  {
    hide IsSelection, CanonicalZone, Hosted;
    zones := [];
    if hosted == [] {
      SelectNone(OnSide(horizon), ZoneName());
    } else {
      var init, last := hosted[..|hosted| - 1], hosted[|hosted| - 1];
      var before := SideIs(init, horizon);
      SelectNext(init, OnSide(horizon), ZoneName(), before, last);
      assert init + [last] == hosted;
      zones := if last.horizon == horizon then before + [last.name] else before;
      HostedNext(HostedByHorizon(init, horizon), last.name);
      HostedNext(before, last.name);
    }
  }

  lemma HostedNext(zones: seq<string>, zone: string)
    ensures var h, z := Hosted(zones), CanonicalZone(zone);
            Hosted(zones + [zone]) == if z in h then h else h + [z]
    ensures zone in zones ==> CanonicalZone(zone) in Hosted(zones)
  {
    hide CanonicalZone;
    assert (zones + [zone])[..|zones|] == zones;
    if zone in zones {
      var i :| 0 <= i < |zones| && zones[i] == zone;
      HostedMember(zones, CanonicalZone(zone));
    }
  }

  ghost predicate IsFirst(hosted: seq<HostedZone>, zone: string, horizon: Horizon, writable: bool, j: nat) {
    j < |hosted| && IsSuch(hosted[j], zone, horizon, writable) &&
    forall i :: 0 <= i < j ==> !IsSuch(hosted[i], zone, horizon, writable)
  }

  predicate IsSuch(h: HostedZone, zone: string, horizon: Horizon, writable: bool) {
    h.name == zone && h.horizon == horizon && (writable ==> h.writable)
  }

  lemma {:induction false} FirstCopyIs(hosted: seq<HostedZone>, zone: string, horizon: Horizon, writable: bool)
    returns (j: nat)
    ensures var r := FirstCopy(hosted, zone, horizon, writable);
            if r.Some? then IsFirst(hosted, zone, horizon, writable, j) && hosted[j] == r.value
            else forall h :: h in hosted ==> !IsSuch(h, zone, horizon, writable)
  {
    j := 0;
    if hosted != [] && !IsSuch(hosted[0], zone, horizon, writable) {
      j := FirstCopyIs(hosted[1..], zone, horizon, writable);
      assert hosted == [hosted[0]] + hosted[1..];
      if FirstCopy(hosted[1..], zone, horizon, writable).Some? { j := j + 1; }
    }
  }

  /** The first writable copy of the zone, else the first copy, else none. */
  lemma HostOfIs(zone: string, hosted: seq<HostedZone>, horizon: Horizon)
    ensures var r := HostOf(zone, hosted, horizon);
            if exists h :: h in hosted && IsSuch(h, zone, horizon, true)
            then r.Some? && exists j: nat :: IsFirst(hosted, zone, horizon, true, j) && hosted[j] == r.value
            else if exists h :: h in hosted && IsSuch(h, zone, horizon, false)
            then r.Some? && exists j: nat :: IsFirst(hosted, zone, horizon, false, j) && hosted[j] == r.value
            else r.None?
  {
    hide FirstCopy, IsSuch;
    var i := FirstCopyIs(hosted, zone, horizon, true);
    var j := FirstCopyIs(hosted, zone, horizon, false);
    if FirstCopy(hosted, zone, horizon, true).Some? { assert hosted[i] in hosted; }
    if FirstCopy(hosted, zone, horizon, false).Some? { assert hosted[j] in hosted; }
  }

  /** The record a place reads: the last one stored there. */
  lemma {:induction false} LookupIs(reverse: seq<Reverse>, p: Place) returns (j: nat)
    ensures var l := Lookup(reverse, p);
            if l.Some? then j < |reverse| && reverse[j] == l.value && IsAt(reverse[j], p) &&
                            forall i :: j < i < |reverse| ==> !IsAt(reverse[i], p)
            else forall r :: r in reverse ==> !IsAt(r, p)
  {
    j := 0;
    if reverse != [] {
      var n := |reverse| - 1;
      j := LookupIs(reverse[..n], p);
      LookupAppend(reverse[..n], reverse[n], p);
      assert reverse == reverse[..n] + [reverse[n]];
      if IsAt(reverse[n], p) { j := n; }
    }
  }

  predicate IsAt(r: Reverse, p: Place) {
    r.server == p.server && r.zone == p.zone && Lower(r.owner) == p.owner
  }

  /* ------------------------------------------------------------- the statuses */

  predicate IsName(g: Group, n: string) {
    exists f :: f in g.records && Lower(f.name) == n
  }

  predicate SingleName(g: Group) {
    forall f, h :: f in g.records && h in g.records ==> Lower(f.name) == Lower(h.name)
  }

  ghost predicate LeastName(g: Group, n: string) {
    IsName(g, n) && forall m :: IsName(g, m) ==> !Precedes(m, n)
  }

  /** The current target is one of the forward names, and the only one. */
  predicate Points(g: Group, targets: seq<string>) {
    |targets| == 1 && IsName(g, Lower(targets[0]))
  }

  /** The first of the current targets that is a forward name. */
  predicate FirstTarget(g: Group, targets: seq<string>, j: nat) {
    j < |targets| && IsName(g, Lower(targets[j])) && forall i :: 0 <= i < j ==> !IsName(g, Lower(targets[i]))
  }

  ghost predicate Suggested(g: Group, targets: seq<string>, n: string) {
    (exists j: nat :: FirstTarget(g, targets, j) && n == Lower(targets[j])) ||
    ((forall i :: 0 <= i < |targets| ==> !IsName(g, Lower(targets[i]))) && LeastName(g, n))
  }

  /** The names of a group: at least one, the least first, and more than one exactly when
      its records have different names. */
  lemma NamesOf(g: Group)
    requires g.records != []
    ensures Names(g) != [] && LeastName(g, Names(g)[0]) && (|Names(g)| > 1 <==> !SingleName(g))
    ensures forall n :: n in Names(g) <==> IsName(g, n)
  {
    hide Precedes, Lower;
    var names := Names(g);
    forall n ensures n in names <==> IsName(g, n) { NamesAre(g, n); }
    NamesAre(g, "");
    PrecedesOrders();
    SortSorted(LowerSet(ForwardNames(g.records)), Precedes);
    assert names[0] in names;
    forall m | IsName(g, m) ensures !Precedes(m, names[0]) {
      var i :| 0 <= i < |names| && names[i] == m;
      PrecedesAsymmetric(m, m);
    }
    ManyNames(g);
  }

  lemma ManyNames(g: Group)
    requires g.records != []
    ensures |Names(g)| > 1 <==> !SingleName(g)
  {
    hide Precedes, Lower, Sort;
    var names, lowered := Names(g), LowerSet(ForwardNames(g.records));
    forall n ensures n in names <==> IsName(g, n) { NamesAre(g, n); }
    SortPermutes(lowered, Precedes);
    LowerSetDistinct(ForwardNames(g.records));
    if |names| > 1 {
      assert lowered[0] in lowered && lowered[1] in lowered;
      assert IsName(g, lowered[0]) && IsName(g, lowered[1]);
    } else if f, h :| f in g.records && h in g.records && Lower(f.name) != Lower(h.name) {
      assert IsName(g, Lower(f.name)) && IsName(g, Lower(h.name));
      assert Lower(f.name) in names && Lower(h.name) in names;
    }
  }

  /** Every way an address row can come out, and what it suggests. */
  lemma RowStatus(input: Input, key: GroupKey, g: Group)
    requires g.records != []
    ensures var row := GroupRow(input, key, g);
            var hosted, targets := row.reverseServer.Some?, row.currentTargets;
            var points, single := Points(g, targets), SingleName(g);
            (row.status.Unhosted? <==> !hosted) &&
            (row.status.Ok? <==> hosted && points) &&
            (row.status.Ambiguous? <==> hosted && !points && !single) &&
            (row.status.Missing? <==> hosted && single && targets == []) &&
            (row.status.Mismatch? <==> hosted && !points && single && targets != []) &&
            (row.suggestedTarget.Some? <==> hosted) &&
            (hosted ==> Suggested(g, targets, row.suggestedTarget.value))
  {
    hide Names, GroupMatch, GroupHost, Current, TargetsOf, Decide, Sort, Lower, LeastName, IsName, SingleName;
    NamesOf(g);
    var row := GroupRow(input, key, g);
    DecideIs(g, row.reverseServer.Some?, row.currentTargets);
  }

  lemma DecideIs(g: Group, hosted: bool, targets: seq<string>)
    requires g.records != []
    ensures var (status, suggested) := Decide(hosted, Names(g), LowerAll(targets));
            var points, single := Points(g, targets), SingleName(g);
            (status.Unhosted? <==> !hosted) && (status.Ok? <==> hosted && points) &&
            (status.Ambiguous? <==> hosted && !points && !single) &&
            (status.Missing? <==> hosted && single && targets == []) &&
            (status.Mismatch? <==> hosted && !points && single && targets != []) &&
            (suggested.Some? <==> hosted) && (hosted ==> Suggested(g, targets, suggested.value))
  {
    hide Names, Lower, LeastName, IsName, SingleName, FirstAmong;
    NamesOf(g);
    FirstAmongIs(g, targets);
    if SingleName(g) { OnlyName(g); }
  }

  lemma OnlyName(g: Group)
    requires g.records != [] && SingleName(g)
    ensures forall n :: IsName(g, n) ==> n == Names(g)[0]
  {
    NamesOf(g);
  }

  lemma FirstAmongIs(g: Group, targets: seq<string>)
    requires g.records != []
    ensures var r := FirstAmong(LowerAll(targets), Names(g));
            if r.Some? then exists j: nat :: FirstTarget(g, targets, j) && r.value == Lower(targets[j])
            else forall i :: 0 <= i < |targets| ==> !IsName(g, Lower(targets[i]))
  {
    hide Names, Lower, IsName;
    NamesOf(g);
    var j := FirstPlace(LowerAll(targets), Names(g));
    if FirstAmong(LowerAll(targets), Names(g)).Some? { assert FirstTarget(g, targets, j); }
    forall i | 0 <= i < |targets| && FirstAmong(LowerAll(targets), Names(g)).None?
      ensures !IsName(g, Lower(targets[i]))
    {
      assert LowerAll(targets)[i] in LowerAll(targets);
    }
  }

  lemma {:induction false} FirstPlace(targets: seq<string>, names: seq<string>) returns (j: nat)
    ensures var r := FirstAmong(targets, names);
            r.Some? ==> j < |targets| && targets[j] == r.value && forall i :: 0 <= i < j ==> targets[i] !in names
  {
    j := 0;
    if targets != [] && targets[0] !in names {
      j := FirstPlace(targets[1..], names);
      if FirstAmong(targets[1..], names).Some? { j := j + 1; }
    }
  }

  /* ------------------------------------------------------------ the other fields */

  ghost predicate IsMatch(input: Input, horizon: Horizon, ip: string, zone: string, owner: string) {
    var m := FindReverseZone(ip, HostedByHorizon(input.hosted, horizon));
    m.Some? && m.value.zone == zone && m.value.owner == owner
  }

  /** The rest of an address row: where its PTR belongs, what is stored there now, and
      whether it may be written. */
  lemma RowFields(input: Input, key: GroupKey, g: Group) returns (host: Option<HostedZone>, current: Option<Reverse>)
    ensures var row := GroupRow(input, key, g);
            row.key == AddressRow(key) && row.ip == g.ip && row.family == key.ip.family && row.horizon == key.horizon &&
            multiset(row.forward) == multiset(g.records) &&
            (StrictWeakOrder(input.forwardBefore) ==> Sorted(row.forward, input.forwardBefore))
    ensures var row := GroupRow(input, key, g);
            (if row.reverseZone.Some? then IsMatch(input, key.horizon, g.ip, row.reverseZone.value, row.owner)
             else FindReverseZone(g.ip, HostedByHorizon(input.hosted, key.horizon)).None? && row.owner == "") &&
            host == (if row.reverseZone.Some? then HostOf(row.reverseZone.value, input.hosted, key.horizon)
                     else None) &&
            row.reverseServer == (if host.Some? then Some(host.value.server) else None) &&
            (row.canWrite <==> host.Some? && host.value.writable &&
                               input.canWriteReverse(row.reverseZone.value, host.value.server))
    ensures var row := GroupRow(input, key, g);
            current == (if host.Some?
                        then Lookup(input.reverse, Place(host.value.server, row.reverseZone.value, Lower(row.owner)))
                        else None) &&
            row.currentTargets == (if current.Some? then current.value.targets else []) &&
            row.currentTtl == (if current.Some? then Some(current.value.ttl) else None)
  {
    hide FindReverseZone, HostedByHorizon, HostOf, Lookup, Names, Decide, LowerAll, Sort, Lower;
    SortPermutes(g.records, input.forwardBefore);
    if StrictWeakOrder(input.forwardBefore) { SortSorted(g.records, input.forwardBefore); }
    host, current := GroupHost(input, key.horizon, g.ip), Current(input, key.horizon, g.ip);
  }

  /** The owner's PTR is claimed by some address of that side. */
  ghost predicate Claimed(input: Input, r: Reverse) {
    exists i :: 0 <= i < |Grouped(input.forward)| &&
                ClaimedBy(input, Grouped(input.forward)[i].0, Grouped(input.forward)[i].1, r)
  }

  predicate ClaimedBy(input: Input, key: GroupKey, g: Group, r: Reverse) {
    var m := FindReverseZone(g.ip, HostedByHorizon(input.hosted, key.horizon));
    m.Some? && key.horizon == r.horizon && m.value.zone == r.zone && Lower(m.value.owner) == Lower(r.owner)
  }

  lemma {:induction false} ClaimsAre(input: Input, groups: Groups, r: Reverse)
    ensures Claim(r.horizon, r.zone, Lower(r.owner)) in Claims(input, groups) <==>
            exists i :: 0 <= i < |groups| && ClaimedBy(input, groups[i].0, groups[i].1, r)
  {
    hide FindReverseZone, HostedByHorizon, Lower;
    if groups != [] {
      var n := |groups| - 1;
      ClaimsAre(input, groups[..n], r);
      assert forall i :: 0 <= i < n ==> groups[..n][i] == groups[i];
    }
  }

  ghost function Orphaned(input: Input): Reverse -> bool {
    (r: Reverse) => r.targets != [] && IpFromReverseOwner(r.owner).Some? && !Claimed(input, r)
  }

  /** The row of such a record. */
  ghost function AsOrphan(input: Input): Reverse -> Row {
    (r: Reverse) =>
      var ip := if IpFromReverseOwner(r.owner).Some? then IpFromReverseOwner(r.owner).value else "";
      var host := HostOf(r.zone, input.hosted, r.horizon);
      Row(OrphanRow(r.server, r.zone, Lower(r.owner)), ip,
          if ParseIp(ip).Some? then ParseIp(ip).value.family else 4, r.horizon, Lower(r.owner), Some(r.zone),
          if host.Some? then Some(host.value.server) else Some(r.server), [], r.targets, Some(r.ttl), Orphan, None,
          host.Some? && host.value.writable && input.canWriteReverse(r.zone, host.value.server))
  }

  lemma OrphanTest(input: Input, r: Reverse)
    ensures IsOrphan(r, Claims(input, Grouped(input.forward))) <==> Orphaned(input)(r)
    ensures IsOrphan(r, Claims(input, Grouped(input.forward))) ==> OrphanRowOf(input, r) == AsOrphan(input)(r)
  {
    hide FindReverseZone, HostedByHorizon, Lower, IpFromReverseOwner, ParseIp, HostOf, Claims, Grouped;
    ClaimsAre(input, Grouped(input.forward), r);
  }

  /** The orphan rows: of every nonempty PTR at an address's owner that nothing claims. */
  lemma {:induction false} OrphanRowsAre(input: Input, reverse: seq<Reverse>)
    ensures IsSelection(reverse, Orphaned(input), AsOrphan(input),
                        OrphanRows(input, Claims(input, Grouped(input.forward)), reverse))
  {
    hide IsSelection, Orphaned, AsOrphan, IsOrphan, OrphanRowOf, Claims, Grouped;
    var claims := Claims(input, Grouped(input.forward));
    if reverse == [] {
      SelectNone(Orphaned(input), AsOrphan(input));
    } else {
      var init, last := reverse[..|reverse| - 1], reverse[|reverse| - 1];
      OrphanRowsAre(input, init);
      OrphanTest(input, last);
      SelectNext(init, Orphaned(input), AsOrphan(input), OrphanRows(input, claims, init), last);
      assert init + [last] == reverse;
    }
  }

  /* -------------------------------------------------------- all rows, and counts */

  const STATUS_ORDER := [Mismatch, Missing, Ambiguous, Orphan, Unhosted, Ok]

  predicate ListedBefore(s: Status, t: Status) {
    exists i, j :: 0 <= i < j < |STATUS_ORDER| && STATUS_ORDER[i] == s && STATUS_ORDER[j] == t
  }

  lemma RankIsOrder(s: Status, t: Status)
    ensures ListedBefore(s, t) <==> Rank(s) < Rank(t)
    ensures Rank(s) == Rank(t) <==> s == t
  {
    assert STATUS_ORDER[Rank(s)] == s && STATUS_ORDER[Rank(t)] == t;
  }

  lemma RowsOrder(input: Input)
    requires StrictWeakOrder(input.ipBefore)
    ensures StrictWeakOrder(RowBefore(input))
  {
    hide Rank;
    var ip, before := input.ipBefore, RowBefore(input);
    forall a, b ensures before(a, b) ==> !before(b, a) { assert ip(a.ip, b.ip) ==> !ip(b.ip, a.ip); }
    forall a, b, c ensures !before(a, b) && !before(b, c) ==> !before(a, c) {
      assert !ip(a.ip, b.ip) && !ip(b.ip, c.ip) ==> !ip(a.ip, c.ip);
    }
  }

  /** The reconciliation: one row a group, the orphans, nothing else; sorted by status, and
      by address within one. */
  lemma RowsAre(input: Input) returns (orphans: seq<Row>)
    ensures IsSelection(input.reverse, Orphaned(input), AsOrphan(input), orphans)
    ensures multiset(Rows(input)) == multiset(GroupRows(input, Grouped(input.forward))) + multiset(orphans)
    ensures StrictWeakOrder(input.ipBefore) ==>
              forall i, j :: 0 <= i < j < |Rows(input)| ==>
                var a, b := Rows(input)[i], Rows(input)[j];
                !ListedBefore(b.status, a.status) && (a.status == b.status ==> !input.ipBefore(b.ip, a.ip))
  {
    hide Grouped, GroupRow, Sort, OrphanRows, IsSelection, Rank, ListedBefore;
    orphans := OrphanRows(input, Claims(input, Grouped(input.forward)), input.reverse);
    OrphanRowsAre(input, input.reverse);
    SortPermutes(UnsortedRows(input), RowBefore(input));
    if StrictWeakOrder(input.ipBefore) {
      RowsOrder(input);
      SortSorted(UnsortedRows(input), RowBefore(input));
      var rows := Rows(input);
      forall i, j | 0 <= i < j < |rows|
        ensures !ListedBefore(rows[j].status, rows[i].status) &&
                (rows[i].status == rows[j].status ==> !input.ipBefore(rows[j].ip, rows[i].ip))
      {
        RankIsOrder(rows[j].status, rows[i].status);
        assert !RowBefore(input)(rows[j], rows[i]);
      }
    }
  }

  ghost function With(s: Status): Row -> bool {
    (row: Row) => row.status == s
  }

  ghost function SameRow(): Row -> Row {
    (row: Row) => row
  }

  lemma {:induction false} CountIs(rows: seq<Row>, s: Status) returns (such: seq<Row>)
    ensures IsSelection(rows, With(s), SameRow(), such) && Count(rows, s) == |such|
  {
    hide IsSelection;
    if rows == [] {
      such := [];
      SelectNone(With(s), SameRow());
    } else {
      var init, last := rows[..|rows| - 1], rows[|rows| - 1];
      var before := CountIs(init, s);
      SelectNext(init, With(s), SameRow(), before, last);
      assert init + [last] == rows;
      such := if last.status == s then before + [last] else before;
    }
  }

  ghost predicate Counts(rows: seq<Row>, s: Status, n: nat) {
    exists such :: IsSelection(rows, With(s), SameRow(), such) && |such| == n
  }

  /** Each count is the number of rows of its status. */
  lemma StatsAre(rows: seq<Row>)
    ensures var s := StatsOf(rows);
            Counts(rows, Ok, s.ok) && Counts(rows, Missing, s.missing) && Counts(rows, Mismatch, s.mismatch) &&
            Counts(rows, Ambiguous, s.ambiguous) && Counts(rows, Orphan, s.orphan) && Counts(rows, Unhosted, s.unhosted)
  {
    hide IsSelection, Count;
    forall s ensures Counts(rows, s, Count(rows, s)) { var such := CountIs(rows, s); }
  }
}
