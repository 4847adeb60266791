/** The fleet-wide reverse-DNS diff: every served address next to the PTR at its owner,
    and every PTR no address claims. */
module PtrReconcile {
  import opened Options
  import opened Text
  import opened InsertionMap
  import opened Sorting
  import opened ReverseName

  datatype Horizon = Public | Internal

  datatype Forward = Forward(zone: string, server: string, horizon: Horizon, name: string,
                             ttl: int, disabled: bool, content: string)

  datatype Reverse = Reverse(zone: string, server: string, horizon: Horizon, owner: string,
                             ttl: int, targets: seq<string>)

  datatype HostedZone = HostedZone(name: string, server: string, writable: bool, horizon: Horizon)

  datatype Status = Ok | Missing | Mismatch | Ambiguous | Orphan | Unhosted

  datatype GroupKey = GroupKey(horizon: Horizon, ip: ParsedIp)

  datatype RowKey = AddressRow(key: GroupKey) | OrphanRow(server: string, zone: string, owner: string)

  datatype Row = Row(
    key: RowKey,
    ip: string,
    family: int,
    horizon: Horizon,
    owner: string,
    reverseZone: Option<string>,
    reverseServer: Option<string>,
    forward: seq<Forward>,
    currentTargets: seq<string>,
    currentTtl: Option<int>,
    status: Status,
    suggestedTarget: Option<string>,
    canWrite: bool)

  /** The records, the caller's rights, and the two locale orders used for display. */
  datatype Input = Input(
    forward: seq<Forward>,
    reverse: seq<Reverse>,
    hosted: seq<HostedZone>,
    canWriteReverse: (string, string) -> bool,
    forwardBefore: (Forward, Forward) -> bool,
    ipBefore: (string, string) -> bool)

  datatype Group = Group(ip: string, records: seq<Forward>)

  datatype Place = Place(server: string, zone: string, owner: string)

  datatype Claim = Claim(horizon: Horizon, zone: string, owner: string)

  /* ---------------------------------------------------------- the pieces */

  /** The names hosted on one side of a split horizon, once each. */
  function HostedByHorizon(hosted: seq<HostedZone>, horizon: Horizon): seq<string> {
    if hosted == [] then []
    else
      var init, h := HostedByHorizon(hosted[..|hosted| - 1], horizon), hosted[|hosted| - 1];
      if h.horizon == horizon && h.name !in init then init + [h.name] else init
  }

  predicate IsCopy(h: HostedZone, zone: string, horizon: Horizon) {
    h.name == zone && h.horizon == horizon
  }

  function FirstCopy(hosted: seq<HostedZone>, zone: string, horizon: Horizon, writable: bool): (r: Option<HostedZone>)
    ensures r.Some? ==> r.value in hosted && IsCopy(r.value, zone, horizon) && (writable ==> r.value.writable)
    ensures r.None? ==> forall h :: h in hosted && IsCopy(h, zone, horizon) ==> writable && !h.writable
  {
    if hosted == [] then None
    else if IsCopy(hosted[0], zone, horizon) && (writable ==> hosted[0].writable) then Some(hosted[0])
    else FirstCopy(hosted[1..], zone, horizon, writable)
  }

  /** A writable copy first, then any copy. */
  function HostOf(zone: string, hosted: seq<HostedZone>, horizon: Horizon): (r: Option<HostedZone>)
    ensures r.Some? ==> r.value in hosted && IsCopy(r.value, zone, horizon)
    ensures r.None? ==> forall h :: h in hosted ==> !IsCopy(h, zone, horizon)
  {
    var w := FirstCopy(hosted, zone, horizon, true);
    if w.Some? then w else FirstCopy(hosted, zone, horizon, false)
  }

  function PlaceOf(r: Reverse): Place {
    Place(r.server, r.zone, Lower(r.owner))
  }

  /** The last record stored at each place. */
  function ByPlace(reverse: seq<Reverse>): map<Place, Reverse> {
    if reverse == [] then map[]
    else ByPlace(reverse[..|reverse| - 1])[PlaceOf(reverse[|reverse| - 1]) := reverse[|reverse| - 1]]
  }

  function Lookup(reverse: seq<Reverse>, p: Place): Option<Reverse> {
    if p in ByPlace(reverse) then Some(ByPlace(reverse)[p]) else None
  }

  type Groups = Entries<GroupKey, Group>

  function AddToGroups(groups: Groups, rec: Forward): Groups {
    var parsed := ParseIp(rec.content);
    if parsed.None? then groups
    else
      var key := GroupKey(rec.horizon, parsed.value);
      var g := if Has(groups, key) then Get(groups, key) else Group(Trim(rec.content), []);
      Put(groups, key, g.(records := g.records + [rec]))
  }

  /** By horizon and canonical address, in order of first occurrence. */
  function Grouped(forward: seq<Forward>): Groups {
    if forward == [] then []
    else AddToGroups(Grouped(forward[..|forward| - 1]), forward[|forward| - 1])
  }

  function ForwardNames(records: seq<Forward>): (r: seq<string>)
    ensures |r| == |records| && forall i :: 0 <= i < |r| ==> r[i] == records[i].name
  {
    seq(|records|, i requires 0 <= i < |records| => records[i].name)
  }

  /** The distinct forward names, sorted. */
  function Names(g: Group): seq<string> {
    Sort(LowerSet(ForwardNames(g.records)), Precedes)
  }

  function LowerAll(targets: seq<string>): (r: seq<string>)
    ensures |r| == |targets| && forall i :: 0 <= i < |r| ==> r[i] == Lower(targets[i])
  {
    seq(|targets|, i requires 0 <= i < |targets| => Lower(targets[i]))
  }

  /** `targets.find((t) => names.includes(t))` */
  function FirstAmong(targets: seq<string>, names: seq<string>): (r: Option<string>)
    ensures r.Some? ==> r.value in targets && r.value in names
    ensures r.None? ==> forall t :: t in targets ==> t !in names
  {
    if targets == [] then None
    else if targets[0] in names then Some(targets[0])
    else FirstAmong(targets[1..], names)
  }

  function FirstOf(names: seq<string>): string {
    if names == [] then "" else names[0]
  }

  function Decide(hosted: bool, names: seq<string>, targets: seq<string>): (Status, Option<string>) {
    if !hosted then (Unhosted, None)
    else if |targets| == 1 && targets[0] in names then (Ok, Some(targets[0]))
    else if |names| > 1 then
      var t := FirstAmong(targets, names);
      (Ambiguous, Some(if t.Some? then t.value else FirstOf(names)))
    else (if targets == [] then Missing else Mismatch, Some(FirstOf(names)))
  }

  function GroupMatch(input: Input, horizon: Horizon, ip: string): Option<ReverseZoneMatch> {
    FindReverseZone(ip, HostedByHorizon(input.hosted, horizon))
  }

  function GroupHost(input: Input, horizon: Horizon, ip: string): Option<HostedZone> {
    var m := GroupMatch(input, horizon, ip);
    if m.Some? then HostOf(m.value.zone, input.hosted, horizon) else None
  }

  function Current(input: Input, horizon: Horizon, ip: string): Option<Reverse> {
    var m, host := GroupMatch(input, horizon, ip), GroupHost(input, horizon, ip);
    if m.Some? && host.Some? then
      Lookup(input.reverse, Place(host.value.server, m.value.zone, Lower(m.value.owner)))
    else None
  }

  function TargetsOf(r: Option<Reverse>): seq<string> {
    if r.Some? then r.value.targets else []
  }

  function GroupRow(input: Input, key: GroupKey, g: Group): Row {
    var m, host := GroupMatch(input, key.horizon, g.ip), GroupHost(input, key.horizon, g.ip);
    var current := Current(input, key.horizon, g.ip);
    var (status, suggested) := Decide(host.Some?, Names(g), LowerAll(TargetsOf(current)));
    Row(AddressRow(key), g.ip, key.ip.family, key.horizon,
        if m.Some? then m.value.owner else "",
        if m.Some? then Some(m.value.zone) else None,
        if host.Some? then Some(host.value.server) else None,
        Sort(g.records, input.forwardBefore), TargetsOf(current),
        if current.Some? then Some(current.value.ttl) else None,
        status, suggested,
        m.Some? && host.Some? && host.value.writable && input.canWriteReverse(m.value.zone, host.value.server))
  }

  function GroupRows(input: Input, groups: Groups): (r: seq<Row>)
    ensures |r| == |groups| && forall i :: 0 <= i < |r| ==> r[i] == GroupRow(input, groups[i].0, groups[i].1)
  {
    seq(|groups|, i requires 0 <= i < |groups| => GroupRow(input, groups[i].0, groups[i].1))
  }

  function ClaimsOf(input: Input, key: GroupKey, g: Group): set<Claim> {
    var m := GroupMatch(input, key.horizon, g.ip);
    if m.Some? then {Claim(key.horizon, m.value.zone, Lower(m.value.owner))} else {}
  }

  function Claims(input: Input, groups: Groups): set<Claim> {
    if groups == [] then {}
    else Claims(input, groups[..|groups| - 1]) + ClaimsOf(input, groups[|groups| - 1].0, groups[|groups| - 1].1)
  }

  /** A PTR for an address no forward record claims. */
  predicate IsOrphan(r: Reverse, claims: set<Claim>) {
    r.targets != [] && Claim(r.horizon, r.zone, Lower(r.owner)) !in claims && IpFromReverseOwner(r.owner).Some?
  }

  function OrphanRowOf(input: Input, r: Reverse): Row
    requires IpFromReverseOwner(r.owner).Some?
  {
    var ip := IpFromReverseOwner(r.owner).value;
    var parsed, host := ParseIp(ip), HostOf(r.zone, input.hosted, r.horizon);
    Row(OrphanRow(r.server, r.zone, Lower(r.owner)), ip, if parsed.Some? then parsed.value.family else 4, r.horizon,
        Lower(r.owner), Some(r.zone), Some(if host.Some? then host.value.server else r.server), [],
        r.targets, Some(r.ttl), Orphan, None,
        host.Some? && host.value.writable && input.canWriteReverse(r.zone, host.value.server))
  }

  function OrphanRows(input: Input, claims: set<Claim>, reverse: seq<Reverse>): seq<Row> {
    if reverse == [] then []
    else
      var init, r := OrphanRows(input, claims, reverse[..|reverse| - 1]), reverse[|reverse| - 1];
      if IsOrphan(r, claims) then init + [OrphanRowOf(input, r)] else init
  }

  function Rank(s: Status): nat {
    match s
    case Mismatch => 0
    case Missing => 1
    case Ambiguous => 2
    case Orphan => 3
    case Unhosted => 4
    case Ok => 5
  }

  function RowBefore(input: Input): (Row, Row) -> bool {
    (a: Row, b: Row) =>
      Rank(a.status) < Rank(b.status) || (Rank(a.status) == Rank(b.status) && input.ipBefore(a.ip, b.ip))
  }

  function UnsortedRows(input: Input): seq<Row> {
    var groups := Grouped(input.forward);
    GroupRows(input, groups) + OrphanRows(input, Claims(input, groups), input.reverse)
  }

  function Rows(input: Input): seq<Row> {
    Sort(UnsortedRows(input), RowBefore(input))
  }

  function Count(rows: seq<Row>, s: Status): nat {
    if rows == [] then 0
    else Count(rows[..|rows| - 1], s) + (if rows[|rows| - 1].status == s then 1 else 0)
  }

  datatype Stats = Stats(ok: nat, missing: nat, mismatch: nat, ambiguous: nat, orphan: nat, unhosted: nat)

  function StatsOf(rows: seq<Row>): Stats {
    Stats(Count(rows, Ok), Count(rows, Missing), Count(rows, Mismatch), Count(rows, Ambiguous),
          Count(rows, Orphan), Count(rows, Unhosted))
  }

  /* ------------------------------------------------ the code, in its form */

  method GroupLoop(forward: seq<Forward>) returns (groups: Groups)
    ensures groups == Grouped(forward)
  {
    hide ParseIp, Trim;
    groups := [];
    for i := 0 to |forward|
      invariant groups == Grouped(forward[..i])
    {
      assert forward[..i + 1][..i] == forward[..i];
      var rec := forward[i];
      var parsed := ParseIp(rec.content);
      if parsed.None? { continue; }
      var key := GroupKey(rec.horizon, parsed.value);
      var g := if Has(groups, key) then Get(groups, key) else Group(Trim(rec.content), []);
      g := g.(records := g.records + [rec]);
      groups := Put(groups, key, g);
    }
    assert forward[..|forward|] == forward;
  }

  /** One forward group against what reverse DNS holds for it. */
  method ClassifyGroup(input: Input, key: GroupKey, g: Group, reverseByKey: map<Place, Reverse>)
    returns (row: Row, claims: set<Claim>)
    requires reverseByKey == ByPlace(input.reverse)
    ensures row == GroupRow(input, key, g) && claims == ClaimsOf(input, key, g)
  {
    hide FindReverseZone, HostedByHorizon, HostOf, ByPlace, Names, LowerAll, Sort, Lower, FirstAmong, FirstOf;
    var m := FindReverseZone(g.ip, HostedByHorizon(input.hosted, key.horizon));
    var owner := if m.Some? then m.value.owner else "";
    var host := if m.Some? then HostOf(m.value.zone, input.hosted, key.horizon) else None;
    var current := None;
    if m.Some? && host.Some? {
      var place := Place(host.value.server, m.value.zone, Lower(m.value.owner));
      if place in reverseByKey { current := Some(reverseByKey[place]); }
    }
    claims := {};
    if m.Some? {
      claims := claims + {Claim(key.horizon, m.value.zone, Lower(m.value.owner))};
    }
    var names, targets := Names(g), LowerAll(TargetsOf(current));
    var status, suggested;
    if m.None? || host.None? {
      status, suggested := Unhosted, None;
    } else if |targets| == 1 && targets[0] in names {
      status, suggested := Ok, Some(targets[0]);
    } else if |names| > 1 {
      var t := FirstAmong(targets, names);
      status, suggested := Ambiguous, Some(if t.Some? then t.value else FirstOf(names));
    } else {
      status := if targets == [] then Missing else Mismatch;
      suggested := Some(FirstOf(names));
    }
    assert current == Current(input, key.horizon, g.ip);
    assert (status, suggested) == Decide(host.Some?, names, targets);
    row := Row(AddressRow(key), g.ip, key.ip.family, key.horizon, owner,
               if m.Some? then Some(m.value.zone) else None,
               if host.Some? then Some(host.value.server) else None,
               Sort(g.records, input.forwardBefore), TargetsOf(current),
               if current.Some? then Some(current.value.ttl) else None, status, suggested,
               m.Some? && host.Some? && host.value.writable &&
               input.canWriteReverse(m.value.zone, host.value.server));
  }

  method GroupRowsLoop(input: Input, groups: Groups, reverseByKey: map<Place, Reverse>)
    returns (rows: seq<Row>, claimedOwners: set<Claim>)
    requires reverseByKey == ByPlace(input.reverse)
    ensures rows == GroupRows(input, groups) && claimedOwners == Claims(input, groups)
  {
    hide GroupRow, ClaimsOf, ByPlace;
    rows, claimedOwners := [], {};
    for i := 0 to |groups|
      invariant rows == GroupRows(input, groups)[..i]
      invariant claimedOwners == Claims(input, groups[..i])
    {
      assert groups[..i + 1][..i] == groups[..i];
      var (key, g) := groups[i];
      var row, claims := ClassifyGroup(input, key, g, reverseByKey);
      claimedOwners := claimedOwners + claims;
      rows := rows + [row];
    }
    assert groups[..|groups|] == groups;
  }

  method ReconcilePtrs(input: Input) returns (rows: seq<Row>, stats: Stats)
    ensures rows == Rows(input) && stats == StatsOf(rows)
  {
    hide FindReverseZone, IpFromReverseOwner, ParseIp, Lower, GroupRows, Claims, Sort, HostOf;
    var reverseByKey: map<Place, Reverse> := map[];
    for i := 0 to |input.reverse|
      invariant reverseByKey == ByPlace(input.reverse[..i])
    {
      assert input.reverse[..i + 1][..i] == input.reverse[..i];
      reverseByKey := reverseByKey[PlaceOf(input.reverse[i]) := input.reverse[i]];
    }
    assert input.reverse[..|input.reverse|] == input.reverse;
    var groups := GroupLoop(input.forward);
    var claimedOwners;
    rows, claimedOwners := GroupRowsLoop(input, groups, reverseByKey);
    ghost var first := rows;
    for i := 0 to |input.reverse|
      invariant rows == first + OrphanRows(input, claimedOwners, input.reverse[..i])
    {
      assert input.reverse[..i + 1][..i] == input.reverse[..i];
      var r := input.reverse[i];
      if r.targets == [] { continue; }
      if Claim(r.horizon, r.zone, Lower(r.owner)) in claimedOwners { continue; }
      var ip := IpFromReverseOwner(r.owner);
      if ip.None? { continue; }
      rows := rows + [OrphanRowOf(input, r)];
    }
    rows := Sort(rows, RowBefore(input));
    stats := Stats(0, 0, 0, 0, 0, 0);
    for i := 0 to |rows|
      invariant stats == StatsOf(rows[..i])
    {
      assert rows[..i + 1][..i] == rows[..i];
      match rows[i].status
      case Ok => stats := stats.(ok := stats.ok + 1);
      case Missing => stats := stats.(missing := stats.missing + 1);
      case Mismatch => stats := stats.(mismatch := stats.mismatch + 1);
      case Ambiguous => stats := stats.(ambiguous := stats.ambiguous + 1);
      case Orphan => stats := stats.(orphan := stats.orphan + 1);
      case Unhosted => stats := stats.(unhosted := stats.unhosted + 1);
    }
    assert rows[..|rows|] == rows;
  }
}
